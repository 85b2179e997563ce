// The kernel heap: the allocator's methods, on area headers in virtual memory.
module KernelHeap {
  import opened Words
  import opened HeaderWords
  import opened Areas
  import opened AreaTheorems
  import opened HeapRuns
  import opened Grants
  import opened HeapLayout
  import opened HeapView
  import opened Merging
  import opened FrameRoles
  import opened FrameBudgets
  import opened PageEntries
  import opened AddressSpaces
  import T = PageTables
  import Frames

  class Heap {
    const space: AddressSpace
    // heap_start and heap_end
    const lo: int
    const hi: int
    // false: the code as written; true: with the repairs marked R1, R2 and R3
    const repaired: bool
    var ran: bool
    // The list that the headers encode.
    ghost var areas: seq<Area>

    constructor (space: AddressSpace, lo: int, hi: int, repaired: bool)
      ensures this.space == space && this.lo == lo && this.hi == hi && this.repaired == repaired && !ran
    {
      this.space, this.lo, this.hi, this.repaired := space, lo, hi, repaired;
      ran := false;
    }

    // The heap lies below the page-table window; page tables, heap pages and
    // free frames are distinct frames, and heap pages can be written to.
    ghost predicate Grounded()
      reads space.phys, space.frames, space.frames.bitmap
    {
      && Bounds(lo, hi)
      && hi + HEADER <= 0xFFC0_0000
      && space.frames.Valid()
      && T.Ram(space.phys[..], space.cr3)
      && Ownership(space.phys[..], space.cr3, T.PageOf(lo), T.PageOf(hi + HEADER - 1), space.frames.Free())
      && WritableRange(space.phys[..], space.cr3, T.PageOf(lo), T.PageOf(hi + HEADER - 1))
    }

    // The mapped words of the heap.
    ghost function Memory(): Memory
      requires T.Ram(space.phys[..], space.cr3)
      reads space.phys
    {
      View(space.phys[..], space.cr3, lo, hi + HEADER)
    }

    ghost predicate Valid()
      reads this, space.phys, space.frames, space.frames.bitmap
    {
      && ran
      && Grounded()
      && Laid(Memory(), areas, lo, hi)
      && Backward(areas, lo)
      && (repaired ==> Linked(areas) && Coalesced(areas))
    }

    // ---------- Words of the heap ----------

    function Read(a: int): (w: Word)
      requires T.Ram(space.phys[..], space.cr3) && a in Memory()
      reads space.phys
      ensures w == Memory()[a]
    {
      space.Load(a)
    }

    method Write(a: int, w: Word)
      requires Grounded() && a in Memory()
      modifies space.phys
      ensures Grounded()
      ensures Memory() == old(Memory())[a := w]
      ensures SameRoles(old(space.phys[..]), space.phys[..], space.cr3)
    {
      hide T.WellFormed, T.DistinctTables, Frames.FreeFrames, Ownership, WritableRange, Writable;
      StoreKeepsRange(space.phys[..], space.cr3, lo, hi + HEADER, space.frames.Free(), a, w);
      StoreChangesOneWord(space.phys[..], space.cr3, lo, hi + HEADER, space.frames.Free(), a, w);
      space.Store(a, w);
    }

    function NextAddress(a: int): Word
      requires T.Ram(space.phys[..], space.cr3) && a in Memory()
      reads space.phys
    {
      Address(Read(a))
    }

    function PrevAddress(a: int): Word
      requires T.Ram(space.phys[..], space.cr3) && a + 4 in Memory()
      reads space.phys
    {
      Address(Read(a + 4))
    }

    predicate Used(a: int)
      requires T.Ram(space.phys[..], space.cr3) && a in Memory()
      reads space.phys
    {
      UsedBit(Read(a))
    }

    predicate Epsilon(a: int)
      requires T.Ram(space.phys[..], space.cr3) && a in Memory()
      reads space.phys
    {
      EpsilonBit(Read(a))
    }

    // get_area_size
    function AreaSize(a: int): Word
      requires T.Ram(space.phys[..], space.cr3) && a in Memory()
      reads space.phys
    {
      var next := NextAddress(a);
      if Epsilon(a) || next == 0 then 0 else Sub32(Sub32(next, a), HEADER)
    }

    method SetNext(a: int, next: Word)
      requires Grounded() && a in Memory()
      modifies space.phys
      ensures Grounded() && Memory() == old(Memory())[a := WithAddress(old(Memory()[a]), next)]
      ensures SameRoles(old(space.phys[..]), space.phys[..], space.cr3)
    {
      Write(a, WithAddress(Read(a), next));
    }

    method SetPrev(a: int, prev: Word)
      requires Grounded() && a + 4 in Memory()
      modifies space.phys
      ensures Grounded() && Memory() == old(Memory())[a + 4 := WithAddress(old(Memory()[a + 4]), prev)]
      ensures SameRoles(old(space.phys[..]), space.phys[..], space.cr3)
    {
      Write(a + 4, WithAddress(Read(a + 4), prev));
    }

    method SetUsed(a: int, used: bool)
      requires Grounded() && a in Memory()
      modifies space.phys
      ensures Grounded() && Memory() == old(Memory())[a := WithUsed(old(Memory()[a]), used)]
      ensures SameRoles(old(space.phys[..]), space.phys[..], space.cr3)
    {
      Write(a, WithUsed(Read(a), used));
    }

    method SetEpsilon(a: int, ep: bool)
      requires Grounded() && a in Memory()
      modifies space.phys
      ensures Grounded() && Memory() == old(Memory())[a := WithEpsilon(old(Memory()[a]), ep)]
      ensures SameRoles(old(space.phys[..]), space.phys[..], space.cr3)
    {
      Write(a, WithEpsilon(Read(a), ep));
    }

    // ---------- Mapping ----------

    // map_page(get_page(), p, flags) for a page that is not mapped.
    method MapNew(p: Word, flags: Word)
      requires Grounded() && p % PAGE_SIZE == 0 && Bit(flags, 1) == 1
      requires T.PageOf(lo) <= T.PageOf(p) <= T.PageOf(hi + HEADER - 1)
      requires T.Translate(space.phys[..], space.cr3, T.PageOf(p)) == None
      requires space.frames.FreeCount() >= NewFrames(space.phys[..], space.cr3, p)
      modifies space.phys, space.frames, space.frames.bitmap
      ensures Grounded() && Extends(old(Memory()), Memory())
      ensures OthersSame(old(space.phys[..]), space.phys[..], space.cr3, T.PageOf(p))
      ensures HasPage(Memory(), lo, hi + HEADER, T.PageOf(p))
      ensures NewFlags(old(space.phys[..]), space.phys[..], space.cr3, flags)
      ensures Filled(old(space.phys[..]), space.phys[..], space.cr3, T.PageOf(p))
      ensures space.frames.FreeCount() == old(space.frames.FreeCount()) - NewFrames(old(space.phys[..]), space.cr3, p)
    {
      hide Frames.Count, Frames.FreeFrames, View, Extends, HasPage, OthersSame, Taken, Filled, NeedsTable, FrameOfRole;
      hide T.MapPage, T.PageOf, T.FrameOf, T.Translate, T.WellFormed, T.NoTable, NewFlags, Bit, WritableTables, Writable;
      ghost var m, free := space.phys[..], space.frames.Free();
      OwnedTables(m, space.cr3, T.PageOf(lo), T.PageOf(hi + HEADER - 1), free);
      ghost var frame, spare := space.MapFresh(p, flags);
      GrowAddsPage(m, space.cr3, lo, hi + HEADER, free, frame, spare, p, flags);
      BelowWindow(p, hi + HEADER - 1);
      GrowKeepsRange(m, space.cr3, T.PageOf(lo), T.PageOf(hi + HEADER - 1), free, frame, spare, p, flags);
    }

    // Back page p with a new frame if it has none. The frames spent are those
    // that the range first..last no longer lacks.
    method MapOne(p: Word, flags: Word, ghost first: nat, ghost last: nat)
      requires Grounded() && p % PAGE_SIZE == 0 && Bit(flags, 1) == 1
      requires T.PageOf(lo) <= first <= T.PageOf(p) <= last <= T.PageOf(hi + HEADER - 1)
      requires space.frames.FreeCount() >= Lacking(first, last)
      modifies space.phys, space.frames, space.frames.bitmap
      ensures Grounded() && Extends(old(Memory()), Memory())
      ensures HasPage(Memory(), lo, hi + HEADER, T.PageOf(p))
      ensures T.Translate(space.phys[..], space.cr3, T.PageOf(p)) != None
      ensures NewFlags(old(space.phys[..]), space.phys[..], space.cr3, flags)
      ensures OthersSame(old(space.phys[..]), space.phys[..], space.cr3, T.PageOf(p))
      ensures space.frames.FreeCount() - Lacking(first, last) == old(space.frames.FreeCount() - Lacking(first, last))
    {
      hide Frames.Count, Frames.FreeFrames, View, Extends, HasPage, T.WellFormed, T.DistinctTables, T.Translate;
      hide Missing, Cost, Filled, NewFrames, OneRole, InUse, NewFlags, EntryOf;
      PageMonotone(hi + HEADER - 1, 0xFFBF_FFFF);
      MappedUnlessNull(space.phys[..], space.cr3, T.PageOf(lo), T.PageOf(hi + HEADER - 1), space.frames.Free(), T.PageOf(p));
      ExtendsItself(Memory());
      SameHasNewFlags(space.phys[..], space.phys[..], space.cr3, flags);
      var pa := space.GetPhysaddr(p);
      if pa == 0 {
        ghost var m := space.phys[..];
        MissingPage(m, space.cr3, first, last, p);
        MapNew(p, flags);
        MissingAfter(m, space.phys[..], space.cr3, first, last, p);
        FilledPage(m, space.phys[..], space.cr3, T.PageOf(p));
      } else {
        MappedHasPage(space.phys[..], space.cr3, lo, hi + HEADER, T.PageOf(p));
      }
    }

    // The number of frames that the pages first..last still lack.
    ghost function Lacking(first: int, last: int): int
      requires T.Ram(space.phys[..], space.cr3)
      reads space.phys
    {
      Cost(Missing(space.phys[..], space.cr3, first, last))
    }

    // The mapping loop of kmalloc and kpagealloc over the pages start..end. It
    // takes exactly as many frames as the range lacks.
    method MapRange(start: Word, end: Word, flags: Word)
      requires Grounded() && start % PAGE_SIZE == 0 && end % PAGE_SIZE == 0 && Bit(flags, 1) == 1
      requires T.PageOf(lo) <= T.PageOf(start) && start <= end && T.PageOf(end) <= T.PageOf(hi + HEADER - 1)
      requires space.frames.FreeCount() >= Lacking(T.PageOf(start), T.PageOf(end))
      modifies space.phys, space.frames, space.frames.bitmap
      ensures Grounded() && Extends(old(Memory()), Memory())
      ensures NewFlags(old(space.phys[..]), space.phys[..], space.cr3, flags)
      ensures HasPages(Memory(), lo, hi + HEADER, T.PageOf(start), T.PageOf(end))
      ensures space.frames.FreeCount() == old(space.frames.FreeCount() - Lacking(T.PageOf(start), T.PageOf(end)))
    {
      hide Frames.Count, Frames.FreeFrames, View, Extends, HasPage, T.WellFormed, T.DistinctTables, Ownership;
      hide T.Translate, Lacking, OthersSame, NewFlags, EntryOf;
      ghost var start_ := space.phys[..];
      var p := start;
      ghost var first, last := T.PageOf(start), T.PageOf(end);
      ExtendsItself(Memory());
      SameHasNewFlags(start_, start_, space.cr3, flags);
      while p <= end
        invariant p % PAGE_SIZE == 0 && start <= p <= end + PAGE_SIZE
        invariant Grounded() && Extends(old(Memory()), Memory())
        invariant NewFlags(start_, space.phys[..], space.cr3, flags)
        invariant HasPages(Memory(), lo, hi + HEADER, first, p / PAGE_SIZE - 1)
        invariant AllMapped(space.phys[..], space.cr3, first, p / PAGE_SIZE - 1)
        invariant space.frames.FreeCount() - Lacking(first, last) == old(space.frames.FreeCount() - Lacking(first, last))
      {
        PageSteps(start, p, end);
        ghost var before, m := Memory(), space.phys[..];
        MapOne(p, flags, first, last);
        NewFlagsTwice(start_, m, space.phys[..], space.cr3, flags);
        ExtendsTransitive(old(Memory()), before, Memory());
        PagesExtend(before, Memory(), lo, hi + HEADER, first, T.PageOf(p));
        StillAllMapped(m, space.phys[..], space.cr3, first, T.PageOf(p));
        p := p + PAGE_SIZE;
      }
      PageSteps(start, p, end);
      NothingLacking(first, last);
    }

    lemma NothingLacking(first: nat, last: nat)
      requires Grounded() && first <= last <= T.PageOf(hi + HEADER - 1)
      requires AllMapped(space.phys[..], space.cr3, first, last)
      ensures Lacking(first, last) == 0
    {
      hide Frames.FreeFrames, T.Translate, Ownership, Missing;
      PageMonotone(hi + HEADER - 1, 0xFFBF_FFFF);
      NothingMissing(space.phys[..], space.cr3, first, last);
    }

    // ---------- Best-fit search ----------

    // The outcome of a search for request r after the first n areas.
    ghost predicate Found(r: Request, n: nat, bestFit: int, bestSize: int)
      requires n < |areas|
      reads this
    {
      match BestIn(areas, r, n)
      case None => bestFit == 0 && bestSize == GB
      case Some(k) => bestFit == areas[k].addr && bestSize == Size(areas, k) < GB && Fits(areas, r, k)
    }

    // The loop of kmalloc.
    method SearchBytes(size: Word) returns (bestFit: Word, bestSize: Word)
      requires Valid()
      ensures Found(Bytes(size), |areas| - 1, bestFit, bestSize)
    {
      hide View, Frames.FreeFrames, Ownership, T.Translate, BestIn, Address, UsedBit, EpsilonBit;
      hide Linked, Coalesced, Backed, Holds, Ascending, Aligned, Size, Sub32, Bounds;
      bestSize, bestFit := GB, 0;
      var a := lo;
      ghost var i := 0;
      AreaFacts(0);
      FirstFound(Bytes(size));
      while !Epsilon(a)
        invariant i < |areas| && a == areas[i].addr && a in Memory()
        invariant Found(Bytes(size), i, bestFit, bestSize)
        decreases |areas| - i
      {
        AreaFacts(i);
        if !Used(a) {
          var areaSize := AreaSize(a);
          if areaSize > size {
            ComparesSizes(bestSize, areaSize, size);
          }
          if areaSize > size && Sub32(bestSize, size) > Sub32(areaSize, size) {
            bestSize := areaSize;
            bestFit := a;
          }
        }
        SearchStep(Bytes(size), i);
        a := NextAddress(a);
        i := i + 1;
        AreaFacts(i);
      }
      AreaFacts(i);
    }

    // The loop of kpagealloc, whose needed size differs from area to area.
    method SearchPages(size: Word) returns (bestFit: Word, bestSize: Word)
      requires Valid()
      ensures Found(Pages(size), |areas| - 1, bestFit, bestSize)
    {
      hide View, Frames.FreeFrames, Ownership, T.Translate, BestIn, Address, UsedBit, EpsilonBit;
      hide Linked, Coalesced, Backed, Holds, Ascending, Aligned, Size, Sub32, Add32, Bounds, PageFloor, Need, FullSize;
      bestSize, bestFit := GB, 0;
      var a := lo;
      ghost var i := 0;
      AreaFacts(0);
      FirstFound(Pages(size));
      while !Epsilon(a)
        invariant i < |areas| && a == areas[i].addr && a in Memory()
        invariant Found(Pages(size), i, bestFit, bestSize)
        decreases |areas| - i
      {
        AreaFacts(i);
        if !Used(a) {
          var areaSize := AreaSize(a);
          NeedExceeds(size, bestFit);
          NeedAboveSize(size, a, areaSize, bestSize);
          if areaSize > size && Sub32(bestSize, size) > Sub32(areaSize, size) {
            var fullSize := FullSize(size, a);
            if areaSize > fullSize && Sub32(bestSize, fullSize) > Sub32(areaSize, fullSize) {
              bestSize := areaSize;
              bestFit := a;
            }
          }
        }
        SearchStep(Pages(size), i);
        a := NextAddress(a);
        i := i + 1;
        AreaFacts(i);
      }
      AreaFacts(i);
    }

    // ---------- Headers ----------

    ghost predicate Standing()
      reads this, space.phys, space.frames, space.frames.bitmap
    {
      Grounded() && Laid(Memory(), areas, lo, hi)
    }

    // The stores to a new header.
    method NewHeader(at: int, next: Word, prev: Word)
      requires Grounded() && at in Memory() && at + 4 in Memory()
      modifies space.phys
      ensures Grounded() && Memory() == old(Memory())[at := WithAddress(0, next)][at + 4 := WithAddress(0, prev)]
      ensures SameRoles(old(space.phys[..]), space.phys[..], space.cr3)
    {
      hide View, Frames.FreeFrames, Ownership, T.Translate, FrameOfRole, EntryOf, Address, WithAddress;
      Write(at + 4, 0);
      Write(at, 0);
      SetNext(at, next);
      SetPrev(at, prev);
    }

    // Put a header at `at` into the free area at bestFit. Only if link is set
    // does the old successor's prev follow (R1).
    method InsertHeader(ghost k: nat, bestFit: Word, at: Word, link: bool)
      requires Standing() && CanInsert(areas, k, bestFit, at)
      requires Backed(Memory(), Insert(link, areas, k, at), lo)
      requires at in Memory() && at + 4 in Memory()
      modifies this`areas, space.phys
      ensures Standing() && areas == Insert(link, old(areas), k, at)
      ensures SameExcept(old(Memory()), Memory(), Touched(old(areas), k, at))
      ensures SameRoles(old(space.phys[..]), space.phys[..], space.cr3)
    {
      hide View, Frames.FreeFrames, Ownership, T.Translate, FrameOfRole, EntryOf, Address, WithAddress, Insert, Backed;
      hide Linked, Coalesced, Holds, Ascending, Aligned, Size, SameExcept, Touched;
      ghost var m, s := Memory(), areas;
      InsertFacts(m, s, k, at);
      var next := NextAddress(bestFit);
      NewHeader(at, next, bestFit);
      SetNext(bestFit, at);
      if link {
        SetPrev(next, at);
      }
      areas := Insert(link, s, k, at);
      assert Memory() == Inserted(m, bestFit, at, next, link);
      InsertLaid(m, s, k, bestFit, at, next, link, lo, hi);
    }

    // Map the pages start..end and split the tail off area k at `at`.
    method CutTail(ghost k: nat, header: Word, at: Word, start: Word, end: Word, flags: Word)
      requires Standing() && CanInsert(areas, k, header, at)
      requires start % PAGE_SIZE == 0 && end % PAGE_SIZE == 0 && start <= end && Bit(flags, 1) == 1
      requires T.PageOf(lo) <= T.PageOf(start) <= T.PageOf(header) + 1 && T.PageOf(end) == T.PageOf(at)
      requires space.frames.FreeCount() >= Lacking(T.PageOf(start), T.PageOf(end))
      modifies this`areas, space.phys, space.frames, space.frames.bitmap
      ensures Standing() && areas == Insert(repaired, old(areas), k, at)
      ensures NewFlags(old(space.phys[..]), space.phys[..], space.cr3, flags)
      ensures space.frames.FreeCount() == old(space.frames.FreeCount() - Lacking(T.PageOf(start), T.PageOf(end)))
      ensures forall x :: x in Live(old(areas)) ==> SameBlock(old(Memory()), Memory(), x)
    {
      hide View, Frames.FreeFrames, Frames.Count, Ownership, T.Translate, Insert, Backed, Extends, HasPage, HasPages;
      hide Linked, Coalesced, Holds, Ascending, Aligned, Size, SameExcept, Touched, SameBlock, Live, T.PageOf;
      hide Lacking, FrameOfRole, EntryOf, NewFlags;
      ghost var m, s := Memory(), areas;
      ghost var m0 := space.phys[..];
      AtInHeap(s, k, header, at, lo, hi);
      MapRange(start, end, flags);
      ghost var v := Memory();
      StillLaid(m, v, s, lo, hi);
      HeaderPage(k);
      TailBacked(v, s, k, header, at, lo, hi, T.PageOf(start), repaired);
      ghost var m1 := space.phys[..];
      InsertHeader(k, header, at, repaired);
      FlagsKept(m0, m1, space.phys[..], space.cr3, flags);
      BlocksAcrossInsert(m, v, Memory(), s, k, header, at, lo, hi);
    }

    // The page that header k lies on is mapped as a whole.
    lemma HeaderPage(k: nat)
      requires Standing() && k < |areas|
      ensures 0 <= areas[k].addr < 0x1_0000_0000
      ensures HasPage(Memory(), lo, hi + HEADER, T.PageOf(areas[k].addr))
    {
      hide Frames.FreeFrames, Frames.Count, Ownership, T.Translate, Backed;
      assert HeaderAt(Memory(), areas, k);
      MappedHasPage(space.phys[..], space.cr3, lo, hi + HEADER, T.PageOf(areas[k].addr));
    }

    // set_area_used(area, true)
    method TakeArea(ghost k: nat, area: Word)
      requires Standing() && k < |areas| - 1 && !areas[k].used && area == areas[k].addr
      modifies this`areas, space.phys
      ensures Standing() && areas == Mark(old(areas), k) && Memory().Keys == old(Memory()).Keys
      ensures SameRoles(old(space.phys[..]), space.phys[..], space.cr3)
      ensures forall x :: x in Live(old(areas)) ==> SameBlock(old(Memory()), Memory(), x)
    {
      hide View, SameRoles, EntryOf, Frames.FreeFrames, Ownership, T.Translate, Backed, SameBlock, Live, WithUsed, UsedBit, EpsilonBit, Address;
      ghost var m, s := Memory(), areas;
      assert HeaderAt(m, s, k);
      SetUsed(area, true);
      areas := Mark(s, k);
      MarkLaid(m, s, k, true, lo, hi, Memory());
      AreasKeepBlocks(m, Memory(), s);
    }

    // ---------- kmalloc and kpagealloc ----------

    // The number of frames that granting request r takes.
    ghost function Growth(r: Request): int
      requires |areas| > 0 && T.Ram(space.phys[..], space.cr3)
      reads this, space.phys
    {
      var b := BestFit(areas, r);
      if b.Some? && TailSplit(areas, b.value, r) then
        var a := areas[b.value].addr;
        Lacking(MapStart(r, a) / PAGE_SIZE, MapEnd(r, a) / PAGE_SIZE)
      else 0
    }

    // There are enough frames; the code does not check for their exhaustion.
    ghost predicate Affordable(r: Request)
      requires |areas| > 0 && T.Ram(space.phys[..], space.cr3)
      reads this, space.phys, space.frames.bitmap
    {
      space.frames.FreeCount() >= Growth(r)
    }

    // In numbers: an allocation that leaves a tail takes the frames that its
    // pages lack up to the header behind it, and none otherwise.
    lemma BytesGrowth(size: Word, k: nat)
      requires Valid() && size <= MAX_REQUEST && BestFit(areas, Bytes(Rounded(size))) == Some(k)
      ensures k + 1 < |areas|
      ensures var a, b := areas[k].addr, areas[k + 1].addr;
        var end := BytesEnd(size, a, b);
        Growth(Bytes(Rounded(size))) == if end == b then 0 else Lacking(a / 4096, end / 4096)
    {
      hide View, Frames.FreeFrames, Ownership, Holds, Backed, Live, BestIn, Rounded, ByteNeed, Lacking;
      var r, a := Bytes(Rounded(size)), areas[k].addr;
      BestInIsBest(areas, r, |areas| - 1);
      BytesCut(areas, size, k);
      RoundedIsByteNeed(size);
      FloorQuotient(a);
      FloorQuotient(TailAddr(r, a));
    }

    lemma PagesGrowthExactly(size: Word, k: nat)
      requires Valid() && size > 0 && size % PAGE_SIZE == 0 && BestFit(areas, Pages(size)) == Some(k)
      ensures k + 1 < |areas|
      ensures var a, b := areas[k].addr, areas[k + 1].addr;
        var end := PagesEnd(size, a, b);
        Growth(Pages(size)) == if end == b then 0 else Lacking(BoundaryAbove(a) / 4096, end / 4096)
    {
      hide View, Frames.FreeFrames, Ownership, Holds, Backed, Live, BestIn, Lacking, NextPage, BoundaryAbove;
      var r, a := Pages(size), areas[k].addr;
      BestInIsBest(areas, r, |areas| - 1);
      PagesCut(areas, size, k);
      BoundaryIsNextPage(a);
      FloorQuotient(TailAddr(r, a));
    }

    // The block that request r gets is mapped as a whole: its tail is split off,
    // or its area was mapped before.
    ghost predicate RoomMapped(r: Request)
      requires |areas| > 0 && T.Ram(space.phys[..], space.cr3)
      reads this, space.phys
    {
      var b := BestFit(areas, r);
      b.Some? ==> TailSplit(areas, b.value, r) || AreaMapped(Memory(), areas, b.value)
    }

    // Why kmalloc need not check the pages of a block whose tail it keeps,
    // unless that block reaches the sentinel.
    lemma MappedAwayFromEnd(r: Request)
      requires Valid() && BestFit(areas, r).Some? && BestFit(areas, r).value + 2 < |areas|
      ensures RoomMapped(r)
    {
      hide View, Frames.FreeFrames, Ownership, Holds, Backed, AreaMapped, BestFit, Linked, Coalesced;
      BackedAreas(Memory(), areas, BestFit(areas, r).value, lo, hi);
    }

    method KMalloc(size: Word) returns (p: Word)
      requires Valid() && size <= MAX_REQUEST
      requires size > 0 ==> Affordable(Bytes(Rounded(size)))
      modifies this`areas, space.phys, space.frames, space.frames.bitmap
      ensures Valid()
      ensures (areas, p as int) == Malloc(repaired, old(areas), size)
      ensures NewFlags(old(space.phys[..]), space.phys[..], space.cr3, 0x103)
      ensures BytesGranted(old(areas), areas, size, p)
      ensures space.frames.FreeCount() ==
        old(space.frames.FreeCount()) - if size == 0 then 0 else old(Growth(Bytes(Rounded(size))))
      ensures p != 0 ==>
        BlockMapped(repaired, old(areas), Bytes(Rounded(size)), Memory(), old(RoomMapped(Bytes(Rounded(size)))))
      ensures forall x :: x in Live(old(areas)) ==> SameBlock(old(Memory()), Memory(), x)
    {
      hide View, SameRoles, Frames.FreeFrames, Frames.Count, Ownership, T.Translate, T.PageOf, BestIn, Place;
      hide Holds, Backed, SameBlock, Live, Linked, Coalesced, Ascending, Aligned, Rounded, TailSplit;
      hide BytesGranted, NewFlags, EntryOf, Growth, RoomMapped, BlockMapped, Payload;
      ghost var m, s := Memory(), areas;
      SameBlocks(m, s);
      SameHasNewFlags(space.phys[..], space.phys[..], space.cr3, 0x103);
      MallocExactly(repaired, s, size, lo, hi);
      if size == 0 {
        return 0;
      }
      RoundedExactly(size);
      var z := Rounded(size);
      var bestFit, bestSize := SearchBytes(z);
      if bestFit == 0 {
        NoneFound(Bytes(z), bestSize);
        NothingGrows(Bytes(z));
        return 0;
      }
      ghost var k := SomeFound(Bytes(z), bestFit, bestSize);
      p := CutBytes(k, bestFit, bestSize, z);
      PlaceBackward(repaired, s, k, Bytes(z), lo, hi);
      if repaired {
        GoodAfterPlace(s, k, Bytes(z), lo, hi);
      }
    }

    // kmalloc behind its search: cut size bytes, header included, out of area k.
    method CutBytes(ghost k: nat, bestFit: Word, bestSize: Word, size: Word) returns (p: Word)
      requires Standing() && size >= 2 * HEADER && size % 8 == 0
      requires BestFit(areas, Bytes(size)) == Some(k) && k < |areas| - 1 && Fits(areas, Bytes(size), k)
      requires bestFit == areas[k].addr && bestSize == Size(areas, k) && Affordable(Bytes(size))
      modifies this`areas, space.phys, space.frames, space.frames.bitmap
      ensures Standing() && NewFlags(old(space.phys[..]), space.phys[..], space.cr3, 0x103)
      ensures areas == Place(repaired, old(areas), k, Bytes(size)) && p == Payload(old(areas), k, Bytes(size))
      ensures space.frames.FreeCount() == old(space.frames.FreeCount() - Growth(Bytes(size)))
      ensures BlockMapped(repaired, old(areas), Bytes(size), Memory(), old(RoomMapped(Bytes(size))))
      ensures forall x :: x in Live(old(areas)) ==> SameBlock(old(Memory()), Memory(), x)
    {
      hide View, SameRoles, Frames.FreeFrames, Frames.Count, Ownership, T.Translate, T.PageOf, BestIn, Place;
      hide Holds, Backed, SameBlock, Live, Linked, Coalesced, Ascending, Aligned, Insert, PageFloor;
      hide NewFlags, EntryOf, RoomMapped;
      ghost var m0 := space.phys[..];
      ghost var m, s := Memory(), areas;
      SameBlocks(m, s);
      SameHasNewFlags(m0, m0, space.cr3, 0x103);
      PlaceBytes(repaired, s, k, size, lo, hi);
      HeapRange(s, k, lo, hi);
      HeapRange(s, k + 1, lo, hi);
      DifferenceWithoutWrap(bestSize, size);
      RoomAt(Bytes(size), k);
      if Sub32(bestSize, size) > 2 * HEADER {
        var new_ := bestFit + size;
        PageMonotone(lo, bestFit);
        FloorMonotone(bestFit, new_);
        PageOfFloor(bestFit);
        PageOfFloor(new_);
        AtInHeap(s, k, bestFit, new_, lo, hi);
        CutTail(k, bestFit, new_, PageFloor(bestFit), PageFloor(new_), 0x103);
        InsertLive(repaired, s, k, new_);
        InsertKeepsIndex(repaired, s, k, new_);
      }
      ghost var m1, m2 := Memory(), space.phys[..];
      TakeArea(k, bestFit);
      FlagsKept(m0, m2, space.phys[..], space.cr3, 0x103);
      BlocksTwice(m, m1, Memory(), s, s);
      p := bestFit + HEADER;
      BlockMappedExactly(m, Memory(), repaired, s, k, Bytes(size), lo, hi);
    }

    method KPageAlloc(n: Word) returns (p: Word)
      requires Valid() && n * PAGE_SIZE < 0x1_0000_0000
      requires n > 0 ==> Affordable(Pages(n * PAGE_SIZE))
      modifies this`areas, space.phys, space.frames, space.frames.bitmap
      ensures Valid()
      ensures (areas, p as int) == PageMalloc(repaired, old(areas), n)
      ensures NewFlags(old(space.phys[..]), space.phys[..], space.cr3, 0x3)
      ensures PagesGranted(old(areas), areas, 4096 * n, p)
      ensures space.frames.FreeCount() ==
        old(space.frames.FreeCount()) - if n == 0 then 0 else old(Growth(Pages(n * PAGE_SIZE)))
      ensures p != 0 ==>
        BlockMapped(repaired, old(areas), Pages(n * PAGE_SIZE), Memory(), old(RoomMapped(Pages(n * PAGE_SIZE))))
      ensures forall x :: x in Live(old(areas)) ==> SameBlock(old(Memory()), Memory(), x)
    {
      hide View, Frames.FreeFrames, Frames.Count, Ownership, T.Translate, T.PageOf, BestIn, Place;
      hide Holds, Backed, SameBlock, Live, Linked, Coalesced, Ascending, Aligned, TailSplit, NextPage;
      hide Growth, RoomMapped, BlockMapped, PageMalloc, Payload;
      hide PagesGranted, NewFlags, EntryOf;
      SameHasNewFlags(space.phys[..], space.phys[..], space.cr3, 0x3);
      ghost var m, s := Memory(), areas;
      SameBlocks(m, s);
      PageMallocExactly(repaired, s, n, lo, hi);
      PagesRequest(repaired, s, n);
      if n == 0 {
        return 0;
      }
      var size := n * PAGE_SIZE;
      Multiples(n);
      var bestFit, bestSize := SearchPages(size);
      if bestFit == 0 {
        NoneFound(Pages(size), bestSize);
        NothingGrows(Pages(size));
        return 0;
      }
      ghost var k := SomeFound(Pages(size), bestFit, bestSize);
      PageMallocAt(repaired, s, n, k);
      p := CutPages(k, bestFit, bestSize, size);
      PlaceBackward(repaired, s, k, Pages(size), lo, hi);
      if repaired {
        GoodAfterPlace(s, k, Pages(size), lo, hi);
      }
    }

    // kpagealloc behind its search: cut the pages out of area k.
    method CutPages(ghost k: nat, bestFit: Word, bestSize: Word, size: Word) returns (p: Word)
      requires Standing() && size > 0 && size % PAGE_SIZE == 0
      requires BestFit(areas, Pages(size)) == Some(k) && k < |areas| - 1 && Fits(areas, Pages(size), k)
      requires bestFit == areas[k].addr && bestSize == Size(areas, k) && Affordable(Pages(size))
      modifies this`areas, space.phys, space.frames, space.frames.bitmap
      ensures Standing() && NewFlags(old(space.phys[..]), space.phys[..], space.cr3, 0x3)
      ensures areas == Place(repaired, old(areas), k, Pages(size)) && p == Payload(old(areas), k, Pages(size))
      ensures space.frames.FreeCount() == old(space.frames.FreeCount() - Growth(Pages(size)))
      ensures BlockMapped(repaired, old(areas), Pages(size), Memory(), old(RoomMapped(Pages(size))))
      ensures forall x :: x in Live(old(areas)) ==> SameBlock(old(Memory()), Memory(), x)
    {
      hide View, Frames.FreeFrames, Frames.Count, Ownership, T.Translate, T.PageOf, BestIn, Place, Fronted, Start;
      hide Holds, Backed, SameBlock, Live, Linked, Coalesced, Ascending, Aligned, Insert, PageFloor, TailSplit;
      hide Growth, Lacking, RoomMapped, Payload, NewFlags, EntryOf, SameRoles;
      ghost var m0 := space.phys[..];
      SameHasNewFlags(m0, m0, space.cr3, 0x3);
      ghost var m, s := Memory(), areas;
      ghost var i := PlacedIndex(s, k, Pages(size));
      PlacePages(repaired, s, k, size, lo, hi);
      HeapRange(s, k, lo, hi);
      HeapRange(s, k + 1, lo, hi);
      PageAfter(bestFit);
      PagesGrowth(k, bestFit, size);
      RoomAt(Pages(size), k);
      var nextPage := NextPage(bestFit);
      var fullSize := size + (nextPage - bestFit) + HEADER;
      var ret := CutFront(k, bestFit, size);
      FlagsKept(m0, m0, space.phys[..], space.cr3, 0x3);
      ghost var p1 := space.phys[..];
      SameHasNewFlags(p1, p1, space.cr3, 0x3);
      ghost var m1 := Memory();
      SameBlocks(m1, s);
      if Sub32(bestSize, fullSize) > 2 * HEADER {
        CutBehind(i, bestFit, ret, size);
      }
      NewFlagsTwice(m0, p1, space.phys[..], space.cr3, 0x3);
      ghost var m2, p2 := Memory(), space.phys[..];
      TakeArea(i, ret);
      FlagsKept(m0, p2, space.phys[..], space.cr3, 0x3);
      BlocksTwice(m, m1, m2, s, s);
      BlocksTwice(m, m2, Memory(), s, s);
      p := ret + HEADER;
      BlockMappedExactly(m, Memory(), repaired, s, k, Pages(size), lo, hi);
    }

    // Map the whole pages behind header ret and put a header behind them.
    method CutBehind(ghost i: nat, bestFit: Word, ret: Word, size: Word)
      requires Standing() && lo <= bestFit && ret == NextPage(bestFit) - HEADER
      requires size > 0 && size % PAGE_SIZE == 0 && NextPage(bestFit) + size < 0x1_0000_0000
      requires CanInsert(areas, i, ret, NextPage(bestFit) + size)
      requires space.frames.FreeCount() >= Lacking(T.PageOf(NextPage(bestFit)), T.PageOf(NextPage(bestFit) + size))
      modifies this`areas, space.phys, space.frames, space.frames.bitmap
      ensures Standing() && areas == Insert(repaired, old(areas), i, NextPage(bestFit) + size)
      ensures NewFlags(old(space.phys[..]), space.phys[..], space.cr3, 0x3)
      ensures Live(areas) == Live(old(areas)) && areas[i] == old(areas)[i]
      ensures space.frames.FreeCount() ==
        old(space.frames.FreeCount() - Lacking(T.PageOf(NextPage(bestFit)), T.PageOf(NextPage(bestFit) + size)))
      ensures forall x :: x in Live(old(areas)) ==> SameBlock(old(Memory()), Memory(), x)
    {
      hide View, Frames.FreeFrames, Frames.Count, Ownership, T.Translate, T.PageOf, Lacking, PageFloor;
      hide Holds, Backed, SameBlock, Live, Linked, Coalesced, Ascending, Aligned, Insert, NewFlags, EntryOf;
      ghost var s := areas;
      var nextPage := NextPage(bestFit);
      var new_ := ret + size + HEADER;
      WholePages(bestFit, size);
      PageAfter(bestFit);
      PageMonotone(lo, nextPage);
      CutTail(i, ret, new_, nextPage, new_, 0x3);
      InsertLive(repaired, s, i, new_);
      InsertKeepsIndex(repaired, s, i, new_);
    }

    // What growth and mapping amount to for a request that nothing or area k fits.
    lemma NothingGrows(r: Request)
      requires |areas| > 0 && T.Ram(space.phys[..], space.cr3) && BestFit(areas, r) == None
      ensures Growth(r) == 0
    {
    }

    lemma RoomAt(r: Request, k: nat)
      requires |areas| > 0 && T.Ram(space.phys[..], space.cr3) && BestFit(areas, r) == Some(k)
      ensures RoomMapped(r) <==> TailSplit(areas, k, r) || AreaMapped(Memory(), areas, k)
    {
    }

    // What kpagealloc's growth amounts to.
    lemma PagesGrowth(k: nat, bestFit: Word, size: int)
      requires |areas| > 0 && T.Ram(space.phys[..], space.cr3)
      requires BestFit(areas, Pages(size)) == Some(k) && k < |areas| - 1 && bestFit == areas[k].addr
      requires size > 0 && size % PAGE_SIZE == 0 && NextPage(bestFit) + size < 0x1_0000_0000
      ensures Growth(Pages(size)) ==
        if TailSplit(areas, k, Pages(size)) then Lacking(T.PageOf(NextPage(bestFit)), T.PageOf(NextPage(bestFit) + size)) else 0
    {
      hide BestFit, TailSplit, PageFloor, Lacking;
      WholePages(bestFit, size);
    }

    // Put a header right in front of the first page boundary behind bestFit.
    method CutFront(ghost k: nat, bestFit: Word, ghost size: int) returns (ret: Word)
      requires Standing() && k < |areas| - 1 && bestFit == areas[k].addr && NextPage(bestFit) < 0x1_0000_0000
      requires Fronted(areas, k, Pages(size)) ==
        if NextPage(bestFit) - HEADER != bestFit then Insert(true, areas, k, NextPage(bestFit) - HEADER) else areas
      requires NextPage(bestFit) - HEADER != bestFit ==> CanInsert(areas, k, bestFit, NextPage(bestFit) - HEADER)
      modifies this`areas, space.phys
      ensures Standing() && areas == Fronted(old(areas), k, Pages(size)) && ret == NextPage(bestFit) - HEADER
      ensures Memory().Keys == old(Memory()).Keys
      ensures SameRoles(old(space.phys[..]), space.phys[..], space.cr3)
      ensures forall first, last :: Lacking(first, last) == old(Lacking(first, last))
      ensures forall x :: x in Live(old(areas)) ==> SameBlock(old(Memory()), Memory(), x)
    {
      hide View, Frames.FreeFrames, Ownership, T.Translate, T.PageOf, Fronted, Start, PageFloor, Touched, Missing, FrameOfRole, EntryOf;
      hide Holds, Backed, SameBlock, Live, Ascending, Aligned, Insert, SameExcept, Extends;
      ghost var m, s := Memory(), areas;
      SameBlocks(m, s);
      ExtendsItself(m);
      ret := bestFit;
      ghost var before := space.phys[..];
      var nextPage := NextPage(bestFit);
      if nextPage - HEADER != ret {
        ret := nextPage - HEADER;
        FrontBacked(k, bestFit, ret);
        InsertHeader(k, bestFit, ret, true);
        SameKeys(m, Memory(), Touched(s, k, ret));
        AllMissingSame(before, space.phys[..], space.cr3);
        BlocksAcrossInsert(m, m, Memory(), s, k, bestFit, ret, lo, hi);
      }
    }

    // The header in front of the first page lies on the page of the old header.
    lemma FrontBacked(k: nat, bestFit: Word, at: Word)
      requires Standing() && CanInsert(areas, k, bestFit, at) && at == NextPage(bestFit) - HEADER
      ensures Backed(Memory(), Insert(true, areas, k, at), lo) && at in Memory() && at + 4 in Memory()
    {
      hide View, Frames.FreeFrames, Ownership, T.Translate, Insert, Backed, HasPage;
      HeaderPage(k);
      FrontOnSamePage(bestFit);
      TailBacked(Memory(), areas, k, bestFit, at, lo, hi, T.PageOf(bestFit) + 1, true);
    }

    lemma NoneFound(r: Request, bestSize: int)
      requires Tiled(areas, lo, hi) && 0 < lo && Found(r, |areas| - 1, 0, bestSize)
      ensures BestFit(areas, r) == None
    {
      hide BestIn, Fits, Size;
      if BestIn(areas, r, |areas| - 1).Some? {
        HeapRange(areas, BestIn(areas, r, |areas| - 1).value, lo, hi);
      }
    }

    lemma SomeFound(r: Request, bestFit: int, bestSize: int) returns (k: nat)
      requires Tiled(areas, lo, hi) && bestFit != 0 && Found(r, |areas| - 1, bestFit, bestSize)
      ensures BestFit(areas, r) == Some(k) && k < |areas| - 1 && Fits(areas, r, k)
      ensures bestFit == areas[k].addr && bestSize == Size(areas, k) < GB
      ensures lo <= bestFit && bestFit + HEADER + bestSize <= hi
    {
      hide BestIn, Fits, Linked;
      k := BestIn(areas, r, |areas| - 1).value;
      HeapRange(areas, k, lo, hi);
      HeapRange(areas, k + 1, lo, hi);
    }

    // ---------- kfree ----------

    // merge_free_areas of the free area i, whose prev may be stray.
    method MergeFreeAreas(area: Word, ghost i: nat)
      requires Standing() && Backward(areas, lo) && i < |areas| - 1 && !areas[i].used && area == areas[i].addr
      requires !TakesSentinel(repaired, areas, i)
      modifies this`areas, space.phys
      ensures Standing()
      ensures areas == MergeAt(repaired, old(areas), i, old(BitBehind(Memory(), areas, i)))
      ensures SameAreas(Scribbled(old(Memory()), old(areas), i), Memory(), old(areas))
    {
      hide View, SameRoles, Frames.FreeFrames, Ownership, T.Translate, Laid, SameAreas, Live, MergeAt, BitBehind, Scribbled;
      hide Ascending, Aligned, Address, WithAddress, UsedBit, EpsilonBit, Backward, FreeBehind;
      ghost var m, f := Memory(), areas;
      MergeReads(m, f, i, lo, hi);
      var prev := PrevAddress(area);
      var next := NextAddress(area);
      var towardsRoot := prev != 0 && !Used(prev);
      // R3: the sentinel is no free neighbour.
      var towardsTail := next != 0 && !Used(next) && (repaired ==> !Epsilon(next));
      if towardsRoot && towardsTail {
        MergeBoth(repaired, m, f, i, lo, hi);
        var na := NextAddress(next);
        SetNext(prev, na);
        SetPrev(na, prev);
      } else if towardsTail {
        MergeTail(repaired, m, f, i, lo, hi);
        var na := NextAddress(next);
        SetNext(area, na);
        // R2: the header behind the absorbed one gets the new prev.
        var target := if repaired then na else next;
        SetPrev(target, area);
      } else if towardsRoot {
        MergeRoot(repaired, m, f, i, lo, hi);
        SetPrev(next, prev);
        SetNext(prev, next);
      } else {
        MergeNothing(repaired, m, f, i, lo, hi);
      }
      areas := MergeAt(repaired, f, i, BitBehind(m, f, i));
    }

    // As written, kfree changes a live block exactly if it overwrites a word
    // of it through a stray prev.
    method KFree(ptr: Word)
      requires Valid() && Releasable(repaired, areas, ptr)
      modifies this`areas, space.phys
      ensures Valid()
      ensures Some(areas) == Release(repaired, old(areas), ptr, old(FreeBit(Memory(), areas, ptr)))
      ensures !Frees(old(areas), ptr) ==> areas == old(areas) && Memory() == old(Memory())
      ensures FreedContents(old(Memory()), Memory(), old(areas), ptr)
      ensures repaired ==> forall x :: x in Live(old(areas)) ==> SameBlock(old(Memory()), Memory(), x)
    {
      hide View, SameRoles, Frames.FreeFrames, Ownership, T.Translate, Merge, MergeStray, Backed, SameBlock, SameAreas, Live;
      hide Ascending, Aligned, Linked, Coalesced, WithUsed, UsedBit, EpsilonBit, Address, HeaderAt, Backward, Scribbled;
      ghost var m, s := Memory(), areas;
      NothingFreed(m, s, ptr, lo, hi);
      if ptr == 0 {
        return;
      }
      ghost var i := HeaderIndex(s, ptr);
      AreaFacts(i);
      var area := ptr - HEADER;
      if !Used(area) {
        return;
      }
      SetUsed(area, false);
      areas := Unmark(s, i);
      ghost var m1 := Memory();
      Freeing(m, m1, s, i, lo, hi);
      MergeFreeAreas(area, i);
      FreedBlocks(m, m1, Memory(), s, ptr, lo, hi);
      FreeAtKeeps(repaired, s, i, BitBehind(m, s, i), lo, hi);
      if repaired {
        LinkedContents(m, Memory(), s, ptr, lo, hi);
      }
    }

    // ---------- kcalloc and krealloc ----------

    method StoreByte(b: int, value: int)
      requires Grounded() && b - b % 4 in Memory() && 0 <= value < 256
      modifies space.phys
      ensures Grounded()
      ensures Memory() == old(Memory())[b - b % 4 := WithByte(old(Memory()[b - b % 4]), b % 4, value)]
    {
      hide View, SameRoles, Frames.FreeFrames, Ownership, T.Translate, WithByte;
      var w := Read(b - b % 4);
      Write(b - b % 4, WithByte(w, b % 4, value));
    }

    // memset(p, 0, n) on the block of area i.
    method ClearBytes(ghost i: nat, p: Word, n: Word)
      requires Standing() && i < |areas| - 1 && p == areas[i].addr + HEADER && n <= Size(areas, i)
      requires AreaMapped(Memory(), areas, i)
      modifies space.phys
      ensures Standing() && ZeroBytes(Memory(), p, p + n)
      ensures forall l: nat :: l < |areas| - 1 && l != i ==> SameBlock(old(Memory()), Memory(), Extent(areas, l))
    {
      hide View, SameRoles, Frames.FreeFrames, Ownership, T.Translate, WithByte, ByteOf, Holds, Backed, Ascending, SameBlock, BlockWords;
      ghost var m := Memory();
      HeapRange(areas, i, lo, hi);
      for t := 0 to n
        invariant Grounded() && SameExcept(m, Memory(), BlockWords(areas, i))
        invariant ZeroBytes(Memory(), p, p + t)
      {
        WordOfByte(areas, i, p + t);
        ghost var before := Memory();
        StoreByte(p + t, 0);
        ZeroOneMore(before, Memory(), p, p + t);
      }
      BlockWritesKeep(m, Memory(), areas, i, lo, hi);
    }

    // Word t of the copy that CopyWords makes.
    method CopyWord(ghost m: Memory, ghost i: nat, ghost j: nat, dst: Word, src: Word, t: Word)
      requires Grounded() && Ascending(areas) && i < |areas| - 1 && j < |areas| - 1 && i != j
      requires areas[i].addr % 8 == 0 && dst == areas[i].addr + HEADER && t < Size(areas, i)
      requires areas[j].addr % 8 == 0 && src == areas[j].addr + HEADER && t < Size(areas, j)
      requires AreaMapped(m, areas, i) && AreaMapped(m, areas, j) && t % 4 == 0
      requires SameExcept(m, Memory(), BlockWords(areas, i)) && Copied(m, Memory(), dst, src, t)
      modifies space.phys
      ensures Grounded()
      ensures SameExcept(m, Memory(), BlockWords(areas, i)) && Copied(m, Memory(), dst, src, t + 4)
    {
      hide View, SameRoles, Frames.FreeFrames, Ownership, T.Translate, BlockWords, AreaMapped, T.PageOf, T.WordIndex, Backward;
      hide Copied, CopiedWord, SameExcept, Ascending, Bounds;
      ghost var before := Memory();
      CopySource(m, before, areas, i, j, t);
      Write(dst + t, Read(src + t));
      OneMoreWord(m, before, Memory(), areas, i, dst + t);
      CopyOneMore(m, before, Memory(), dst, src, t);
    }

    // memcpy(dst, src, n) from area j to area i, word by word: n is a multiple of 8.
    method CopyWords(ghost i: nat, ghost j: nat, dst: Word, src: Word, n: Word)
      requires Standing() && i < |areas| - 1 && j < |areas| - 1 && i != j
      requires dst == areas[i].addr + HEADER && src == areas[j].addr + HEADER
      requires n <= Size(areas, i) && n == Size(areas, j)
      requires AreaMapped(Memory(), areas, i) && AreaMapped(Memory(), areas, j)
      modifies space.phys
      ensures Standing() && Copied(old(Memory()), Memory(), dst, src, n)
      ensures forall l: nat :: l < |areas| - 1 && l != i ==> SameBlock(old(Memory()), Memory(), Extent(areas, l))
    {
      hide View, SameRoles, Frames.FreeFrames, Ownership, T.Translate, Holds, Backed, SameBlock, BlockWords, AreaMapped;
      hide Copied, CopiedWord, SameExcept, Ascending, Aligned, Bounds;
      ghost var m, s := Memory(), areas;
      HeapRange(s, i, lo, hi);
      HeapRange(s, j, lo, hi);
      HeapRange(s, j + 1, lo, hi);
      Multiple4(s[j].addr, s[j + 1].addr);
      var t := 0;
      CopiedNone(m, dst, src, s, i);
      while t < n
        invariant 0 <= t <= n && t % 4 == 0
        invariant Grounded() && SameExcept(m, Memory(), BlockWords(s, i))
        invariant Copied(m, Memory(), dst, src, t)
      {
        CopyWord(m, i, j, dst, src, t);
        t := t + 4;
      }
      BlockWritesKeep(m, Memory(), s, i, lo, hi);
    }

    method KCalloc(nmemb: Word, size: Word) returns (p: Word)
      requires Valid() && (CallocRejects(nmemb, size) || Total(nmemb, size) <= MAX_REQUEST)
      requires !CallocRejects(nmemb, size) ==>
        var r := Bytes(Rounded(Total(nmemb, size))); Affordable(r) && RoomMapped(r)
      modifies this`areas, space.phys, space.frames, space.frames.bitmap
      ensures Valid()
      ensures (areas, p as int) == Calloc(repaired, old(areas), nmemb, size)
      ensures if nmemb * size >= 0x1_0000_0000 then p == 0 && areas == old(areas)
              else BytesGranted(old(areas), areas, nmemb * size, p)
      ensures p != 0 ==> ZeroBytes(Memory(), p, p + nmemb * size)
      ensures space.frames.FreeCount() == old(space.frames.FreeCount()) -
        if CallocRejects(nmemb, size) then 0 else old(Growth(Bytes(Rounded(Total(nmemb, size)))))
      ensures forall x :: x in Live(old(areas)) ==> SameBlock(old(Memory()), Memory(), x)
    {
      hide View, SameRoles, Frames.FreeFrames, Frames.Count, Ownership, T.Translate, T.PageOf, BestFit, Place, Rounded;
      hide Holds, Backed, SameBlock, Live, Linked, Coalesced, Ascending, Aligned, ZeroBytes, AreaMapped;
      hide BytesGranted;
      ghost var m, s := Memory(), areas;
      NothingGranted(s);
      SameBlocks(m, s);
      CallocRejectsExactly(nmemb, size);
      var total := Total(nmemb, size);
      if nmemb == 0 || size == 0 {
        return 0;
      } else if size != total / nmemb {
        return 0;
      }
      p := KMalloc(total);
      if p == 0 {
        return;
      }
      ghost var m1 := Memory();
      ghost var i := NewBlock(repaired, s, m1, total, lo, hi);
      ClearBytes(i, p, total);
      OtherBlocks(m, m1, Memory(), s, areas, i);
    }

    // mid is the memory in front of the final kfree, if there is one, and at the
    // end otherwise. Only that kfree may, as written, overwrite a live block.
    method KRealloc(ptr: Word, size: Word) returns (p: Word, ghost mid: Memory)
      requires Valid() && size <= MAX_REQUEST && Reallocable(repaired, areas, ptr, size)
      requires MustMove(areas, ptr, size) ==>
        var r := Bytes(Rounded(size));
        && Affordable(r) && RoomMapped(r)
        && (ptr != 0 ==>
              var i := HeaderIndex(areas, ptr);
              areas[i].used && AreaMapped(Memory(), areas, i))
      modifies this`areas, space.phys, space.frames, space.frames.bitmap
      ensures Valid()
      ensures |Malloc(repaired, old(areas), size).0| > 1
      ensures Some((areas, p as int)) ==
        Realloc(repaired, old(areas), ptr, size, FreeBit(mid, Malloc(repaired, old(areas), size).0, ptr))
      ensures space.frames.FreeCount() ==
        old(space.frames.FreeCount()) - if MustMove(old(areas), ptr, size) then old(Growth(Bytes(Rounded(size)))) else 0
      ensures Resized(repaired, old(areas), areas, ptr, size, p)
      ensures forall x :: x in Live(old(areas)) ==> SameBlock(old(Memory()), mid, x)
      ensures if ptr != 0 && p != 0 && p != ptr then
          && Copied(old(Memory()), mid, p, ptr, Size(old(areas), HeaderIndex(old(areas), ptr)))
          && FreedContents(mid, Memory(), Malloc(repaired, old(areas), size).0, ptr)
        else mid == Memory()
      ensures repaired ==>
        && (forall x :: x in Live(old(areas)) ==> SameBlock(old(Memory()), Memory(), x))
        && (ptr != 0 && p != 0 && p != ptr ==>
              Copied(old(Memory()), Memory(), p, ptr, Size(old(areas), HeaderIndex(old(areas), ptr))))
    {
      hide View, SameRoles, Frames.FreeFrames, Frames.Count, Ownership, T.Translate, T.PageOf, BestFit, Place, Rounded;
      hide Holds, Backed, SameBlock, Live, Linked, Coalesced, Ascending, Aligned, Copied, AreaMapped, Backward;
      hide FreedContents, FreeBit, Release, Growth, RoomMapped, BlockMapped;
      hide BytesGranted;
      ghost var m, s := Memory(), areas;
      SameBlocks(m, s);
      MallocLength(repaired, s, size);
      mid := m;
      if size == 0 {
        return 0, mid;
      } else if ptr == 0 {
        p := KMalloc(size);
        mid := Memory();
        return;
      }
      ghost var i := HeaderIndex(s, ptr);
      AreaFacts(i);
      var areaSize := AreaSize(ptr - HEADER);
      if areaSize >= size {
        return ptr, mid;
      }
      p := KMalloc(size);
      if p == 0 {
        NoneGranted(s, areas, size);
        mid := Memory();
        return;
      }
      mid := MoveBlock(ptr, p, areaSize, m, s, size);
      NewIsOther(repaired, s, size, i, lo, hi);
    }

    // The rest of krealloc: copy the block of ptr to the new one at p, and free it.
    method MoveBlock(ptr: Word, p: Word, areaSize: Word, ghost m: Memory, ghost s: seq<Area>, ghost size: Word)
      returns (ghost mid: Memory)
      requires Valid() && Laid(m, s, lo, hi) && 0 < size <= MAX_REQUEST && p != 0
      requires (areas, p as int) == Malloc(repaired, s, size)
      requires forall x :: x in Live(s) ==> SameBlock(m, Memory(), x)
      requires BlockMapped(repaired, s, Bytes(Rounded(size)), Memory(), true)
      requires Releasable(repaired, areas, ptr)
      requires var i := HeaderIndex(s, ptr);
        && s[i].used && s[i].addr == ptr - HEADER && AreaMapped(m, s, i) && areaSize == Size(s, i) < size
      modifies this`areas, space.phys
      ensures Valid()
      ensures Some(areas) == Release(repaired, old(areas), ptr, FreeBit(mid, old(areas), ptr))
      ensures forall x :: x in Live(s) ==> SameBlock(m, mid, x)
      ensures Copied(m, mid, p, ptr, areaSize) && FreedContents(mid, Memory(), old(areas), ptr)
      ensures repaired ==>
        (forall x :: x in Live(s) ==> SameBlock(m, Memory(), x)) && Copied(m, Memory(), p, ptr, areaSize)
    {
      hide View, SameRoles, Frames.FreeFrames, Ownership, T.Translate, Place, Rounded, Malloc;
      hide Holds, Backed, SameBlock, Live, Linked, Coalesced, Ascending, Aligned, Copied, AreaMapped, Backward;
      hide FreedContents, FreeBit, Release, BlockMapped, IsNewBlock;
      ghost var m1, t := Memory(), areas;
      ghost var i := HeaderIndex(s, ptr);
      ghost var k := NewBlock(repaired, s, m1, size, lo, hi);
      ghost var j := OldBlock(m, s, t, m1, i, k, lo, hi);
      ExtentFacts(s, i, t, j);
      CopyWords(k, j, p, ptr, areaSize);
      mid := Memory();
      OtherBlocks(m, m1, mid, s, t, k);
      SameBlocks(mid, t);
      AfterMove(m, m1, mid, mid, s, t, i, k, lo, hi);
      KFree(ptr);
      if repaired {
        AfterMove(m, m1, mid, Memory(), s, t, i, k, lo, hi);
      }
    }

    // ---------- init_heap ----------

    // Runs once; the first and the last page of the heap get a frame.
    method InitHeap()
      requires Grounded() && (!ran ==> Virgin()) && (ran ==> Valid())
      modifies this`ran, this`areas, space.phys, space.frames, space.frames.bitmap
      ensures Valid()
      ensures areas == if old(ran) then old(areas) else Initial(lo, hi)
      ensures NewFlags(old(space.phys[..]), space.phys[..], space.cr3, 0x3)
      ensures !old(ran) ==> EndsAdded(old(Memory()), Memory(), lo, hi)
      ensures space.frames.FreeCount() == old(space.frames.FreeCount()) - if old(ran) then 0 else old(EndsLack())
    {
      hide View, Frames.FreeFrames, Frames.Count, Ownership, T.Translate, T.PageOf, Extends, HasPage;
      hide NewFlags, EntryOf, FrameOfRole;
      ghost var m0 := space.phys[..];
      SameHasNewFlags(m0, m0, space.cr3, 0x3);
      if ran {
        return;
      }
      MapEnds();
      ghost var m1 := space.phys[..];
      ZeroEnds();
      FlagsKept(m0, m1, space.phys[..], space.cr3, 0x3);
      ghost var m2 := space.phys[..];
      WriteEnds();
      FlagsKept(m0, m2, space.phys[..], space.cr3, 0x3);
      ran := true;
    }

    method MapEnds()
      requires Grounded() && Virgin()
      modifies space.phys, space.frames, space.frames.bitmap
      ensures Grounded() && EndsAdded(old(Memory()), Memory(), lo, hi)
      ensures NewFlags(old(space.phys[..]), space.phys[..], space.cr3, 0x3)
      ensures lo in Memory() && lo + 4 in Memory() && hi in Memory() && hi + 4 in Memory()
      ensures space.frames.FreeCount() == old(space.frames.FreeCount()) - old(EndsLack())
    {
      hide View, Frames.FreeFrames, Frames.Count, Ownership, T.Translate, T.PageOf, Extends, HasPage, OthersSame;
      hide Missing, Cost, Filled, NewFrames, FrameOfRole, NewFlags, EntryOf;
      EndsApart(lo, hi);
      ghost var m := space.phys[..];
      FirstPage(m, space.cr3, lo, hi);
      MapNew(lo, 0x3);
      ghost var v, m1 := Memory(), space.phys[..];
      BothPages(m, space.phys[..], space.cr3, lo, hi);
      SamePageFrames(space.phys[..], space.cr3, hi, PageFloor(hi));
      SameTranslation(m, space.phys[..], space.cr3, T.PageOf(lo), T.PageOf(hi));
      MapNew(PageFloor(hi), 0x3);
      NewFlagsTwice(m, m1, space.phys[..], space.cr3, 0x3);
      FirstWords(v, Memory(), lo, hi);
      EndsAddedBy(m, m1, space.phys[..], space.cr3, lo, hi);
    }

    // The two headers are mapped and hold zeros.
    ghost predicate EndsZero()
      requires Grounded()
      reads space.phys, space.frames, space.frames.bitmap
    {
      var m := Memory();
      && lo in m && lo + 4 in m && hi in m && hi + 4 in m
      && m[lo] == 0 && m[lo + 4] == 0 && m[hi] == 0 && m[hi + 4] == 0
    }

    // The stores of init_heap: the words of both headers, then their fields.
    method ZeroEnds()
      requires Grounded()
      requires lo in Memory() && lo + 4 in Memory() && hi in Memory() && hi + 4 in Memory()
      modifies space.phys
      ensures SameRoles(old(space.phys[..]), space.phys[..], space.cr3)
      ensures Grounded() && EndsZero() && Memory().Keys == old(Memory()).Keys
    {
      hide View, EntryOf, FrameOfRole, Frames.FreeFrames, Ownership, T.Translate;
      Write(lo + 4, 0);
      Write(lo, 0);
      Write(hi + 4, 0);
      Write(hi, 0);
    }

    method LinkHeader(a: int, next: Word, prev: Word, ep: bool)
      requires Grounded() && a in Memory() && a + 4 in Memory()
      modifies space.phys
      ensures SameRoles(old(space.phys[..]), space.phys[..], space.cr3)
      ensures Grounded() && Memory() == old(Memory())
        [a := WithEpsilon(WithAddress(old(Memory()[a]), next), ep)]
        [a + 4 := WithAddress(old(Memory()[a + 4]), prev)]
    {
      hide View, EntryOf, FrameOfRole, Frames.FreeFrames, Ownership, T.Translate, WithAddress, WithEpsilon;
      SetNext(a, next);
      SetPrev(a, prev);
      SetEpsilon(a, ep);
    }

    method WriteEnds()
      requires Grounded()
      requires EndsZero()
      modifies this`areas, space.phys
      ensures SameRoles(old(space.phys[..]), space.phys[..], space.cr3)
      ensures Grounded() && areas == Initial(lo, hi) && Laid(Memory(), areas, lo, hi)
      ensures Linked(areas) && Coalesced(areas) && Memory().Keys == old(Memory()).Keys
    {
      hide View, EntryOf, FrameOfRole, Frames.FreeFrames, Ownership, T.Translate, Address, WithAddress, WithUsed, WithEpsilon;
      hide Holds, Backed, Ascending, Aligned;
      ghost var m := Memory();
      LinkHeader(lo, hi, 0, false);
      SetUsed(lo, false);
      LinkHeader(hi, 0, lo, true);
      areas := Initial(lo, hi);
      InitialLaid(m, Memory(), lo, hi);
    }

    // The number of frames that the first and the last page of the heap lack.
    ghost function EndsLack(): int
      requires Grounded()
      reads space.phys, space.frames, space.frames.bitmap
    {
      Cost(Missing(space.phys[..], space.cr3, T.PageOf(lo), T.PageOf(lo)) +
           Missing(space.phys[..], space.cr3, T.PageOf(hi), T.PageOf(hi)))
    }

    // Neither of the two pages is mapped yet, and there are frames to map them.
    ghost predicate Virgin()
      requires Grounded()
      reads space.phys, space.frames, space.frames.bitmap
    {
      && T.Translate(space.phys[..], space.cr3, T.PageOf(lo)) == None
      && T.Translate(space.phys[..], space.cr3, T.PageOf(hi)) == None
      && space.frames.FreeCount() >= EndsLack()
    }

    lemma FirstFound(r: Request)
      requires Tiled(areas, lo, hi)
      ensures Found(r, 0, 0, GB)
    {
    }

    // What the accessors return for header i.
    lemma AreaFacts(i: nat)
      requires Valid() && i < |areas|
      ensures var a := areas[i].addr;
        && a in Memory() && a + 4 in Memory()
        && lo <= a <= hi
        && Used(a) == areas[i].used
        && Epsilon(a) == (i == |areas| - 1)
        && (i < |areas| - 1 ==> NextAddress(a) == areas[i + 1].addr && AreaSize(a) == Size(areas, i) < GB)
    {
      hide View, Frames.FreeFrames, Ownership, Address, UsedBit, EpsilonBit, Linked, Coalesced, Backed, Sub32;
      var a := areas[i].addr;
      assert HeaderAt(Memory(), areas, i);
      assert areas[0].addr <= a <= areas[|areas| - 1].addr;
      if i < |areas| - 1 {
        assert a + HEADER <= areas[i + 1].addr <= areas[|areas| - 1].addr;
        SizeWithoutWrap(a, areas[i + 1].addr);
      }
    }

    // One more area visited.
    lemma SearchStep(r: Request, i: nat)
      requires i < |areas| - 1
      ensures BestIn(areas, r, i + 1) ==
        if Fits(areas, r, i) && (BestIn(areas, r, i).None? || Size(areas, BestIn(areas, r, i).value) > Size(areas, i))
        then Some(i) else BestIn(areas, r, i)
    {
    }
  }

  // Stores to the heap after mapping leave the flags alone.
  lemma FlagsKept(m: seq<T.PageFrame>, m1: seq<T.PageFrame>, m2: seq<T.PageFrame>, cr3: nat, flags: nat)
    requires T.Ram(m, cr3) && T.Ram(m1, cr3) && T.Ram(m2, cr3)
    requires NewFlags(m, m1, cr3, flags) && SameRoles(m1, m2, cr3)
    ensures NewFlags(m, m2, cr3, flags)
  {
    hide NewFlags, EntryOf;
    SameHasNewFlags(m1, m2, cr3, flags);
    NewFlagsTwice(m, m1, m2, cr3, flags);
  }

  lemma BelowWindow(p: Word, last: Word)
    requires p % PAGE_SIZE == 0 && T.PageOf(p) <= T.PageOf(last) && last < 0xFFC0_0000
    ensures p < 0xFFC0_0000
  {
    assert p == p / PAGE_SIZE * PAGE_SIZE;
  }

  lemma SizeWithoutWrap(a: int, b: int)
    requires 0 <= a && a + HEADER <= b < 0x1_0000_0000
    ensures Sub32(Sub32(b, a), HEADER) == b - a - HEADER
  {
  }

  // kmalloc's comparison of the two differences is a comparison of sizes.
  lemma ComparesSizes(bestSize: int, areaSize: int, size: Word)
    requires size < areaSize < GB && size < bestSize <= GB
    ensures Sub32(bestSize, size) > Sub32(areaSize, size) <==> bestSize > areaSize
  {
  }

  // full_size: what the area at a must exceed.
  function FullSize(size: Word, a: Word): Word {
    var nextPage := NextPage(a) % 0x1_0000_0000;
    var fullSize := Add32(Add32(size, Sub32(nextPage, a)), HEADER);
    if Sub32(nextPage, HEADER) != a then Add32(fullSize, HEADER) else fullSize
  }

  lemma FullSizeWithoutWrap(size: Word, a: Word)
    requires size < GB && a <= 0xFFC0_0000
    ensures FullSize(size, a) == Need(Pages(size), a) > size
  {
    hide PageFloor, NextPage;
    PageAfter(a);
  }

  lemma PageAfter(a: int)
    ensures a < NextPage(a) <= a + PAGE_SIZE
  {
  }

  // Neither comparison of kpagealloc wraps, although full_size varies from
  // area to area: the area is taken exactly when it fits and is smaller than
  // the best so far.
  lemma NeedAboveSize(size: Word, a: Word, areaSize: Word, bestSize: Word)
    requires a <= 0xFFC0_0000 && areaSize < GB && bestSize <= GB
    requires bestSize < GB ==> size < bestSize
    ensures var full := FullSize(size, a);
      && ((areaSize > size && Sub32(bestSize, size) > Sub32(areaSize, size)
           && areaSize > full && Sub32(bestSize, full) > Sub32(areaSize, full))
          <==> areaSize > Need(Pages(size), a) && bestSize > areaSize)
  {
    hide NextPage, PageFloor, FullSize, Sub32;
    if areaSize > size {
      FullSizeWithoutWrap(size, a);
      ComparesSizes(bestSize, areaSize, size);
      if bestSize > areaSize > FullSize(size, a) {
        ComparesSizes(bestSize, areaSize, FullSize(size, a));
      }
    } else {
      NeedExceeds(size, a);
    }
  }

  lemma NeedExceeds(size: int, a: int)
    ensures Need(Pages(size), a) > size
  {
    hide PageFloor, NextPage;
    PageAfter(a);
  }

  predicate CanInsert(s: seq<Area>, k: nat, bestFit: int, at: int) {
    && k < |s| - 1 && !s[k].used && bestFit == s[k].addr
    && s[k].addr + HEADER <= at <= s[k + 1].addr - HEADER && at % 8 == 0
  }

  // The words that inserting a header at `at` into area k writes.
  ghost function Touched(s: seq<Area>, k: nat, at: int): set<int>
    requires k < |s| - 1
  {
    {at, at + 4, s[k].addr, s[k + 1].addr + 4}
  }

  lemma InsertFacts(m: Memory, s: seq<Area>, k: nat, at: int)
    requires Holds(m, s) && Ascending(s) && k < |s| - 1
    requires s[k].addr + HEADER <= at <= s[k + 1].addr - HEADER
    ensures s[k].addr in m && s[k + 1].addr + 4 in m && Address(m[s[k].addr]) == s[k + 1].addr
    ensures s[k].addr !in {at, at + 4}
  {
    assert HeaderAt(m, s, k) && HeaderAt(m, s, k + 1);
  }

  // The stores of InsertHeader, one after the other.
  function Inserted(m: Memory, a: Word, at: Word, next: Word, link: bool): (m': Memory)
    requires a in m && at in m && at + 4 in m && next + 4 in m
    ensures m'.Keys == m.Keys
  {
    var m1 := m[at := WithAddress(0, next)][at + 4 := WithAddress(0, a)];
    var m2 := m1[a := WithAddress(m1[a], at)];
    if link then m2[next + 4 := WithAddress(m2[next + 4], at)] else m2
  }

  lemma InsertLaid(m: Memory, s: seq<Area>, k: nat, a: Word, at: Word, next: Word, link: bool, lo: int, hi: int)
    requires Laid(m, s, lo, hi) && 0 < lo && hi < 0x1_0000_0000 && CanInsert(s, k, a, at)
    requires at in m && at + 4 in m && a in m && next == s[k + 1].addr && next + 4 in m
    requires Backed(m, Insert(link, s, k, at), lo)
    ensures Laid(Inserted(m, a, at, next, link), Insert(link, s, k, at), lo, hi)
    ensures SameExcept(m, Inserted(m, a, at, next, link), Touched(s, k, at))
  {
    hide Insert, Live, Address, UsedBit, EpsilonBit, WithAddress;
    var m' := Inserted(m, a, at, next, link);
    InsertFacts(m, s, k, at);
    HeapRange(s, k, lo, hi);
    InsertTiled(link, s, k, at, lo, hi);
    SetLink(0, a);
    SetLink(m[next + 4], at);
    InsertHolds(m, s, k, at, link, m');
  }

  lemma HeapRange(s: seq<Area>, k: nat, lo: int, hi: int)
    requires Tiled(s, lo, hi) && k < |s|
    ensures lo <= s[k].addr <= hi && s[k].addr % 8 == 0
  {
  }

  // A header inside the heap lies on one of its pages.
  lemma AtInHeap(s: seq<Area>, k: nat, header: int, at: Word, lo: int, hi: int)
    requires Tiled(s, lo, hi) && Bounds(lo, hi) && CanInsert(s, k, header, at)
    ensures lo < at < hi && T.PageOf(at) <= T.PageOf(hi + HEADER - 1)
  {
    HeapRange(s, k, lo, hi);
    HeapRange(s, k + 1, lo, hi);
    PageMonotone(at, hi + HEADER - 1);
  }

  lemma StillLaid(m: Memory, v: Memory, s: seq<Area>, lo: int, hi: int)
    requires Laid(m, s, lo, hi) && Extends(m, v)
    ensures Laid(v, s, lo, hi)
  {
    forall i: nat | i < |s|
      ensures HeaderAt(v, s, i)
    {
      assert HeaderAt(m, s, i);
    }
  }

  // Once the pages up to the new header are mapped, so is all below it.
  lemma TailBacked(v: Memory, s: seq<Area>, k: nat, header: Word, at: Word, lo: int, hi: int, first: nat, link: bool)
    requires Laid(v, s, lo, hi) && Bounds(lo, hi) && hi < 0xFFC0_0000 && CanInsert(s, k, header, at)
    requires HasPage(v, lo, hi + HEADER, T.PageOf(header))
    requires HasPages(v, lo, hi + HEADER, first, T.PageOf(at)) && first <= T.PageOf(header) + 1
    ensures Backed(v, Insert(link, s, k, at), lo) && at in v && at + 4 in v
  {
    hide Holds, T.PageOf, Insert, Live, Bounds, HasPage, Backed;
    AtInHeap(s, k, header, at, lo, hi);
    HeapRange(s, k, lo, hi);
    forall a: int | header <= a < at + HEADER && a % 4 == 0
      ensures a in v
    {
      SamePageAsHeader(at, a);
      PageMonotone(header, a);
      assert T.PageOf(a) == T.PageOf(header) || HasPage(v, lo, hi + HEADER, T.PageOf(a));
      InPage(v, lo, hi + HEADER, a);
    }
    Words8(at);
    BackedAfterInsert(v, s, k, header, at, lo, link);
  }

  lemma Words8(at: int)
    requires at % 8 == 0
    ensures at % 4 == 0 && (at + 4) % 4 == 0
  {
  }

  lemma InPage(v: Memory, lo: int, hi: int, a: Word)
    requires HasPage(v, lo, hi, T.PageOf(a)) && lo <= a < hi && a % 4 == 0
    ensures a in v
  {
  }

  lemma BackedAfterInsert(v: Memory, s: seq<Area>, k: nat, header: int, at: int, lo: int, link: bool)
    requires Ascending(s) && CanInsert(s, k, header, at) && Backed(v, s, lo)
    requires forall a: int :: header <= a < at + HEADER && a % 4 == 0 ==> a in v
    ensures Backed(v, Insert(link, s, k, at), lo)
  {
    hide Insert;
    InsertAt(link, s, k, at);
    if k < |s| - 2 {
      assert s[k].addr <= s[|s| - 2].addr;
    }
  }

  // An 8-aligned header does not cross a page boundary.
  lemma SamePageAsHeader(at: Word, a: int)
    requires at % 8 == 0 && at <= 0xFFC0_0000 && 0 <= a < at + HEADER
    ensures a < 0x1_0000_0000 && T.PageOf(a) <= T.PageOf(at)
  {
    HeaderInPage(at / 8, at / PAGE_SIZE);
  }

  lemma HeaderInPage(w: int, p: int)
    requires p * 4096 <= 8 * w < (p + 1) * 4096
    ensures 8 * w + 8 <= (p + 1) * 4096
  {
  }

  lemma BlocksAcrossInsert(m: Memory, v: Memory, v': Memory, s: seq<Area>, k: nat, header: int, at: Word, lo: int, hi: int)
    requires Tiled(s, lo, hi) && CanInsert(s, k, header, at)
    requires Extends(m, v) && SameExcept(v, v', Touched(s, k, at))
    ensures forall x :: x in Live(s) ==> SameBlock(m, v', x)
  {
    assert Spare(s, k, at) && Spare(s, k, at + 4) && Spare(s, k, s[k].addr) && Spare(s, k + 1, s[k + 1].addr + 4);
    BlocksKept(v, v', s, Touched(s, k, at));
  }

  lemma EndsApart(lo: int, hi: int)
    requires Bounds(lo, hi) && hi + HEADER <= 0xFFC0_0000
    ensures PageFloor(hi) % PAGE_SIZE == 0 && 0 <= PageFloor(hi) < 0x1_0000_0000
    ensures T.PageOf(PageFloor(hi)) == T.PageOf(hi)
    ensures T.PageOf(lo) < T.PageOf(hi) <= T.PageOf(hi + HEADER - 1)
    ensures T.PageOf(hi) < T.WINDOW * T.ENTRIES
  {
    hide PageFloor;
    PageOfFloor(hi);
    PageMonotone(lo + PAGE_SIZE, hi);
    PageMonotone(hi, hi + HEADER - 1);
    PageMonotone(hi, 0xFFBF_FFFF);
    NextFrame(lo);
  }

  lemma NextFrame(a: int)
    ensures (a + PAGE_SIZE) / PAGE_SIZE == a / PAGE_SIZE + 1
  {
  }

  lemma SameTranslation(m: seq<T.PageFrame>, m': seq<T.PageFrame>, cr3: nat, page: nat, p: nat)
    requires T.Ram(m, cr3) && T.Ram(m', cr3) && OthersSame(m, m', cr3, page)
    requires p < T.WINDOW * T.ENTRIES && p != page
    ensures T.Translate(m', cr3, p) == T.Translate(m, cr3, p)
  {
  }

  lemma FirstWords(v: Memory, v': Memory, lo: int, hi: int)
    requires Bounds(lo, hi) && hi + HEADER <= 0xFFC0_0000
    requires HasPage(v, lo, hi + HEADER, T.PageOf(lo)) && Extends(v, v')
    requires HasPage(v', lo, hi + HEADER, T.PageOf(hi))
    ensures lo in v' && lo + 4 in v' && hi in v' && hi + 4 in v'
  {
    PageMultiple(lo);
    Words8(lo);
    Words8(hi);
    HeaderOnPage(lo);
    HeaderOnPage(hi);
    InPage(v, lo, hi + HEADER, lo);
    InPage(v, lo, hi + HEADER, lo + 4);
    InPage(v', lo, hi + HEADER, hi);
    InPage(v', lo, hi + HEADER, hi + 4);
  }

  lemma HeaderOnPage(a: Word)
    requires a % 8 == 0 && a < 0xFFC0_0000
    ensures T.PageOf(a + 4) == T.PageOf(a)
  {
    HeaderInPage(a / 8, a / PAGE_SIZE);
  }

  // The two headers that init_heap writes encode the initial list.
  lemma InitialLaid(m: Memory, m': Memory, lo: int, hi: int)
    requires Bounds(lo, hi) && lo in m && lo + 4 in m && hi in m && hi + 4 in m
    requires lo in m' && lo + 4 in m' && hi in m' && hi + 4 in m'
    requires m'[lo] == WithUsed(WithEpsilon(WithAddress(0, hi), false), false)
    requires m'[lo + 4] == WithAddress(0, 0)
    requires m'[hi] == WithEpsilon(WithAddress(0, 0), true) && m'[hi + 4] == WithAddress(0, lo)
    ensures Laid(m', Initial(lo, hi), lo, hi)
    ensures Linked(Initial(lo, hi)) && Coalesced(Initial(lo, hi))
  {
    hide WithAddress, WithUsed, WithEpsilon, Address, UsedBit, EpsilonBit;
    PageMultiple(lo);
    NoFlags();
    SetLink(0, hi);
    SetLink(0, 0);
    SetLink(0, lo);
    SettersAreIndependent(WithAddress(0, hi), 0, false);
    SettersAreIndependent(WithEpsilon(WithAddress(0, hi), false), 0, false);
    SettersAreIndependent(WithAddress(0, 0), 0, true);
    var s := Initial(lo, hi);
    assert HeaderAt(m', s, 0) && HeaderAt(m', s, 1);
    LowWords(m', lo);
  }

  lemma LowWords(m: Memory, lo: int)
    requires lo % 8 == 0 && lo in m && lo + 4 in m
    ensures forall a :: lo <= a < lo + HEADER && a % 4 == 0 ==> a in m
  {
    forall a | lo <= a < lo + HEADER && a % 4 == 0
      ensures a == lo || a == lo + 4
    {
      EvenOrOdd(lo / 8, a / 4);
    }
  }

  lemma EvenOrOdd(w: int, q: int)
    requires 8 * w <= 4 * q < 8 * w + 8
    ensures q == 2 * w || q == 2 * w + 1
  {
  }

  // The range of pages that an allocation in the area at a maps.
  function MapStart(r: Request, a: int): int {
    match r
    case Bytes(_) => PageFloor(a)
    case Pages(_) => NextPage(a)
  }

  function MapEnd(r: Request, a: int): int {
    PageFloor(TailAddr(r, a))
  }

  lemma MarkLaid(m: Memory, s: seq<Area>, k: nat, used: bool, lo: int, hi: int, m': Memory)
    requires Laid(m, s, lo, hi) && k < |s| - 1
    requires s[k].addr in m && m' == m[s[k].addr := WithUsed(m[s[k].addr], used)]
    ensures Laid(m', s[k := s[k].(used := used)], lo, hi) && SameAreas(m, m', s)
  {
    hide WithUsed, UsedBit, EpsilonBit, Address, Live;
    MarkHolds(m, s, k, used, m');
    HeaderWritesKeepAreas(m, m', s, {s[k].addr});
  }

  // kfree that has nothing to free.
  lemma NothingFreed(m: Memory, s: seq<Area>, ptr: int, lo: int, hi: int)
    requires Tiled(s, lo, hi) && 0 <= lo && hi < 0x1_0000_0000
    ensures !Frees(s, ptr) ==> FreedContents(m, m, s, ptr) && forall x :: x in Live(s) ==> SameBlock(m, m, x)
  {
    hide Live;
    SameBlocks(m, s);
    if !Frees(s, ptr) {
      FreedContentsFrom(m, m, s, ptr, lo, hi);
    }
  }

  // kfree between its own store and merge_free_areas.
  lemma Freeing(m: Memory, m1: Memory, s: seq<Area>, i: nat, lo: int, hi: int)
    requires Laid(m, s, lo, hi) && Backward(s, lo) && 0 < lo && i < |s| - 1
    requires s[i].addr in m && m1 == m[s[i].addr := WithUsed(m[s[i].addr], false)]
    ensures Laid(m1, Unmark(s, i), lo, hi) && Backward(Unmark(s, i), lo)
    ensures SameAreas(Scribbled(m, s, i), Scribbled(m1, Unmark(s, i), i), s)
    ensures StoredHeader(s, i).None? ==> BitBehind(m1, Unmark(s, i), i) == BitBehind(m, s, i)
    ensures StoredHeader(Unmark(s, i), i) == StoredHeader(s, i)
  {
    hide Live, Backed, Holds, Scribbled, StoredHeader, WithUsed, BitBehind;
    MarkLaid(m, s, i, false, lo, hi, m1);
    if StoredHeader(s, i).None? {
      StrayFacts(m, s, i, lo, hi);
    }
    ScribbledAfterUnmark(m, m1, s, i);
  }

  lemma FreedBlocks(m: Memory, m1: Memory, m2: Memory, s: seq<Area>, ptr: int, lo: int, hi: int)
    requires Tiled(s, lo, hi) && 0 <= lo && hi < 0x1_0000_0000 && Frees(s, ptr)
    requires var i := HeaderIndex(s, ptr);
      && SameAreas(Scribbled(m, s, i), Scribbled(m1, Unmark(s, i), i), s)
      && SameAreas(Scribbled(m1, Unmark(s, i), i), m2, Unmark(s, i))
    ensures FreedContents(m, m2, s, ptr)
  {
    hide Live, SameBlock, SameAreas, Scribbled, HeaderIndex;
    var i := HeaderIndex(s, ptr);
    SameAreasTwice(Scribbled(m, s, i), Scribbled(m1, Unmark(s, i), i), m2, s, Unmark(s, i));
    AreasKeepBlocks(Scribbled(m, s, i), m2, s);
    FreedContentsFrom(m, m2, s, ptr, lo, hi);
  }

  lemma FreeAtKeeps(repaired: bool, s: seq<Area>, i: nat, bit: bool, lo: int, hi: int)
    requires Tiled(s, lo, hi) && Backward(s, lo) && 0 < lo && i < |s| - 1 && s[i].used && !TakesSentinel(repaired, s, i)
    ensures Backward(FreeAt(repaired, s, i, bit), lo)
    ensures repaired && Linked(s) && Coalesced(s) ==>
      Linked(FreeAt(true, s, i, bit)) && Coalesced(FreeAt(true, s, i, bit))
  {
    hide Free, Live, MergeStray, Backward;
    if StoredHeader(s, i).Some? {
      FreeBackward(repaired, s, i, StoredHeader(s, i).value, lo, hi);
    } else {
      StrayBackward(repaired, s, i, bit, lo, hi);
    }
    if repaired && Linked(s) && Coalesced(s) {
      StoredHeaderIsPred(s, i, lo, hi);
      PredIsStored(s, i, lo, hi);
      FreeLinkedExactly(true, s, i, lo, hi);
      FreeCoalesced(true, s, i);
    }
  }

  // The first n bytes at dst are those that were at src.
  ghost predicate Copied(m: Memory, m': Memory, dst: int, src: int, n: int) {
    forall a :: src <= a < src + n && a % 4 == 0 ==> a in m && CopiedWord(m, m', dst - src, a)
  }

  ghost predicate CopiedWord(m: Memory, m': Memory, shift: int, a: int) {
    a in m && a + shift in m' && m'[a + shift] == m[a]
  }

  lemma CopiedNone(m: Memory, dst: int, src: int, s: seq<Area>, i: nat)
    requires i < |s| - 1
    ensures Copied(m, m, dst, src, 0) && SameExcept(m, m, BlockWords(s, i))
  {
  }

  lemma OneMoreWord(m: Memory, m1: Memory, m2: Memory, s: seq<Area>, i: nat, a: int)
    requires i < |s| - 1 && SameExcept(m, m1, BlockWords(s, i)) && a in m1 && a in BlockWords(s, i)
    requires m2.Keys == m1.Keys && forall b :: b in m1 && b != a ==> m2[b] == m1[b]
    ensures SameExcept(m, m2, BlockWords(s, i))
  {
    hide BlockWords;
  }

  lemma CopyOneMore(m: Memory, m1: Memory, m2: Memory, dst: int, src: int, t: int)
    requires Copied(m, m1, dst, src, t) && t % 4 == 0 && src % 8 == 0 && src + t in m
    requires dst + t in m1 && m2 == m1[dst + t := m[src + t]]
    ensures Copied(m, m2, dst, src, t + 4)
  {
    forall a | src <= a < src + t + 4 && a % 4 == 0
      ensures a in m && CopiedWord(m, m2, dst - src, a)
    {
      if a < src + t {
        assert CopiedWord(m, m1, dst - src, a);
      } else {
        OneWord(src / 8, t / 4, a);
      }
    }
  }

  lemma OneWord(s: int, t: int, a: int)
    requires 8 * s + 4 * t <= a < 8 * s + 4 * t + 4 && a % 4 == 0
    ensures a == 8 * s + 4 * t
  {
    assert a == 4 * (a / 4);
  }

  lemma Multiple4(a: int, b: int)
    requires a % 8 == 0 && b % 8 == 0
    ensures (b - a - HEADER) % 4 == 0
  {
    assert b - a - HEADER == 4 * (2 * (b / 8) - 2 * (a / 8) - 2);
  }

  // Word t of area j can be read unchanged, and word t of area i written.
  lemma CopySource(m: Memory, m': Memory, s: seq<Area>, i: nat, j: nat, t: int)
    requires Ascending(s) && i < |s| - 1 && j < |s| - 1 && i != j && s[i].addr % 8 == 0 && s[j].addr % 8 == 0
    requires AreaMapped(m, s, i) && AreaMapped(m, s, j) && SameExcept(m, m', BlockWords(s, i))
    requires 0 <= t < Size(s, j) && t % 4 == 0 && t < Size(s, i)
    ensures var a, b := s[j].addr + HEADER + t, s[i].addr + HEADER + t;
      a in m && a in m' && m'[a] == m[a] && b in m' && b in BlockWords(s, i)
  {
    var a, b := s[j].addr + HEADER + t, s[i].addr + HEADER + t;
    WordIn(s[j].addr / 8, t / 4);
    WordIn(s[i].addr / 8, t / 4);
    assert a !in BlockWords(s, i) by {
      assert i < j || j < i;
    }
  }

  lemma WordIn(w: int, q: int)
    ensures (8 * w + HEADER + 4 * q) % 4 == 0
  {
    assert 8 * w + HEADER + 4 * q == 4 * (2 * w + 2 + q);
  }

  lemma SameKeys(m: Memory, m': Memory, touched: set<int>)
    requires SameExcept(m, m', touched)
    ensures m'.Keys == m.Keys
  {
  }

  // Request r was granted from list s, and in the new memory its block is
  // mapped as a whole just in case `mapped` holds.
  ghost predicate BlockMapped(repaired: bool, s: seq<Area>, r: Request, m': Memory, mapped: bool)
    requires |s| > 0
  {
    BestFit(s, r).Some? &&
    var k := BestFit(s, r).value;
    AreaMapped(m', Place(repaired, s, k, r), PlacedIndex(s, k, r)) <==> mapped
  }

  // Allocating maps pages only if the tail is split off.
  lemma BlockMappedExactly(m: Memory, m': Memory, repaired: bool, s: seq<Area>, k: nat, r: Request, lo: int, hi: int)
    requires Tiled(s, lo, hi) && k < |s| - 1 && Fits(s, r, k) && Proper(r)
    requires Laid(m', Place(repaired, s, k, r), lo, hi)
    requires !TailSplit(s, k, r) ==> m'.Keys == m.Keys
    ensures AreaMapped(m', Place(repaired, s, k, r), PlacedIndex(s, k, r)) <==>
      TailSplit(s, k, r) || AreaMapped(m, s, k)
  {
    hide Holds, Live, Backed, Fits, Insert;
    var t, i := Place(repaired, s, k, r), PlacedIndex(s, k, r);
    if TailSplit(s, k, r) {
      BackedAreas(m', t, i, lo, hi);
    } else if i == k {
      assert t[k].addr == s[k].addr && t[k + 1].addr == s[k + 1].addr;
    } else {
      InsertAt(true, s, k, Start(r, s[k].addr));
      BackedAreas(m', t, k, lo, hi);
      MappedBehindFront(m, m', s, t, k);
    }
  }

  // Area k, cut at a new header whose front part is mapped.
  lemma MappedBehindFront(m: Memory, m': Memory, s: seq<Area>, t: seq<Area>, k: nat)
    requires k < |s| - 1 && |t| == |s| + 1 && m'.Keys == m.Keys && AreaMapped(m', t, k)
    requires t[k].addr == s[k].addr <= t[k + 1].addr <= t[k + 2].addr == s[k + 1].addr
    ensures AreaMapped(m', t, k + 1) <==> AreaMapped(m, s, k)
  {
  }

  const END_SIZE: Word := 0x1FBF_FFE0

  // At the heap's end the comment fails: right after init_heap, if no page in
  // between was mapped before, this request takes everything, splits nothing
  // and maps nothing.
  lemma FreshEndBlockUnmapped(before: Memory, m: Memory, lo: int, hi: int)
    requires lo == 0xE000_0000 && hi == 0xFFBF_FFF8
    requires EndsAdded(before, m, lo, hi) && lo + PAGE_SIZE !in before
    ensures var s, r := Initial(lo, hi), Bytes(Rounded(END_SIZE));
      BestFit(s, r) == Some(0) && !TailSplit(s, 0, r) && !AreaMapped(m, s, 0)
  {
    assert T.PageOf(lo) == 0xE_0000 && T.PageOf(lo + PAGE_SIZE) == 0xE_0001 && T.PageOf(hi) == 0xF_FBFF;
    assert (lo + PAGE_SIZE) % 4 == 0;
    EndBlockUnmapped(m, lo, hi);
  }

  lemma EndBlockUnmapped(m: Memory, lo: int, hi: int)
    requires lo == 0xE000_0000 && hi == 0xFFBF_FFF8 && lo + PAGE_SIZE !in m
    ensures var s, r := Initial(lo, hi), Bytes(Rounded(END_SIZE));
      BestFit(s, r) == Some(0) && !TailSplit(s, 0, r) && !AreaMapped(m, s, 0)
  {
    var s, r := Initial(lo, hi), Bytes(Rounded(END_SIZE));
    assert r.size == 0x1FBF_FFE8 && Size(s, 0) == 0x1FBF_FFF0;
    assert BestIn(s, r, 0) == None && BestIn(s, r, 1) == Some(0);
    assert (lo + PAGE_SIZE) % 4 == 0 && s[0].addr <= lo + PAGE_SIZE < s[1].addr;
  }

  // krealloc has to get a new block.
  predicate MustMove(s: seq<Area>, ptr: int, size: Word)
    requires |s| > 1
  {
    size > 0 && (ptr == 0 || Size(s, HeaderIndex(s, ptr)) < size)
  }

  // p is what krealloc(ptr, size) returns for list s, and t the list behind it:
  // an empty request fails, null asks for a new block, a large enough block
  // stays, and any other is replaced if there is room for a new one.
  ghost predicate Resized(repaired: bool, s: seq<Area>, t: seq<Area>, ptr: int, size: Word, p: int)
    requires |s| > 1
  {
    var i := HeaderIndex(s, ptr);
    if size == 0 then p == 0 && t == s
    else if ptr == 0 then BytesGranted(s, t, size, p)
    else if s[i + 1].addr - s[i].addr - 8 >= size then p == ptr && t == s
    else BytesGranted(s, Malloc(repaired, s, size).0, size, p) && (p == 0 ==> t == s)
  }

  // kcalloc(0, n) and kcalloc(n, 0) return null.
  lemma NothingGranted(s: seq<Area>)
    ensures BytesGranted(s, s, 0, 0)
  {
  }

  lemma NoneGranted(s: seq<Area>, t: seq<Area>, size: int)
    requires BytesGranted(s, t, size, 0)
    ensures t == s
  {
  }

  lemma MallocLength(repaired: bool, s: seq<Area>, size: Word)
    requires |s| > 1
    ensures |Malloc(repaired, s, size).0| > 1
  {
  }

  lemma ExtentFacts(s: seq<Area>, i: nat, t: seq<Area>, j: nat)
    requires i < |s| - 1 && j < |t| - 1 && Extent(t, j) == Extent(s, i)
    ensures t[j].addr == s[i].addr && Size(t, j) == Size(s, i)
  {
  }

  // The new block is not the old one.
  lemma NewIsOther(repaired: bool, s: seq<Area>, size: Word, i: nat, lo: int, hi: int)
    requires Tiled(s, lo, hi) && 0 < size <= MAX_REQUEST && i < |s| - 1 && s[i].used
    requires Malloc(repaired, s, size).1 != 0
    ensures Malloc(repaired, s, size).1 != s[i].addr + HEADER
  {
    BestInIsBest(s, Bytes(Rounded(size)), |s| - 1);
    var k := BestFit(s, Bytes(Rounded(size))).value;
    assert i < k || k < i;
  }

  // The block that a successful kmalloc made, in the new list.
  lemma NewBlock(repaired: bool, s: seq<Area>, m1: Memory, size: Word, lo: int, hi: int) returns (i: nat)
    requires Tiled(s, lo, hi) && 0 < size <= MAX_REQUEST && Malloc(repaired, s, size).1 != 0
    requires Laid(m1, Malloc(repaired, s, size).0, lo, hi)
    requires BlockMapped(repaired, s, Bytes(Rounded(size)), m1, true)
    ensures var (t, p) := Malloc(repaired, s, size);
      && i < |t| - 1 && t[i].used && p == t[i].addr + HEADER && Size(t, i) >= size && AreaMapped(m1, t, i)
      && IsNewBlock(s, t, i)
  {
    hide Holds, Backed, Live, Rounded, Insert, AreaMapped, Linked;
    RoundedExactly(size);
    var z := Rounded(size);
    BestInIsBest(s, Bytes(z), |s| - 1);
    i := BestFit(s, Bytes(z)).value;
    PlaceKeepsTiling(repaired, s, i, Bytes(z), lo, hi);
    PlaceFresh(s, i, s[i].addr + HEADER, lo, hi);
  }

  // The live blocks of t are those of s and block i, which is new.
  ghost predicate IsNewBlock(s: seq<Area>, t: seq<Area>, i: nat) {
    && i < |t| - 1 && Live(t) == Live(s) + {Extent(t, i)}
    && forall x :: x in Live(s) ==> x.0 != Extent(t, i).0
  }

  // Writing the new block leaves the old ones alone.
  lemma OtherBlocks(m: Memory, m1: Memory, m2: Memory, s: seq<Area>, t: seq<Area>, i: nat)
    requires IsNewBlock(s, t, i)
    requires forall x :: x in Live(s) ==> SameBlock(m, m1, x)
    requires forall l: nat :: l < |t| - 1 && l != i ==> SameBlock(m1, m2, Extent(t, l))
    ensures forall x :: x in Live(s) ==> SameBlock(m, m2, x)
  {
    forall x | x in Live(s)
      ensures SameBlock(m, m2, x)
    {
      assert x in Live(t);
      var l :| 0 <= l < |t| - 1 && t[l].used && x == Extent(t, l);
      assert SameBlock(m, m1, x) && SameBlock(m1, m2, Extent(t, l));
    }
  }

  // The old block in the list after kmalloc.
  lemma OldBlock(m: Memory, s: seq<Area>, t: seq<Area>, m1: Memory, i: nat, k: nat, lo: int, hi: int) returns (j: nat)
    requires Laid(m, s, lo, hi) && Laid(m1, t, lo, hi) && i < |s| - 1 && s[i].used && AreaMapped(m, s, i)
    requires IsNewBlock(s, t, k) && forall x :: x in Live(s) ==> SameBlock(m, m1, x)
    ensures j < |t| - 1 && j != k && t[j].used && Extent(t, j) == Extent(s, i) && AreaMapped(m1, t, j)
  {
    hide Backed, Holds;
    assert Extent(s, i) in Live(s);
    j :| 0 <= j < |t| - 1 && t[j].used && Extent(s, i) == Extent(t, j);
    assert SameBlock(m, m1, Extent(s, i));
    StillMapped(m, m1, s, i, t, j, lo, hi);
  }

  lemma StillMapped(m: Memory, m1: Memory, s: seq<Area>, i: nat, t: seq<Area>, j: nat, lo: int, hi: int)
    requires i < |s| - 1 && j < |t| - 1 && Extent(t, j) == Extent(s, i) && Laid(m1, t, lo, hi)
    requires AreaMapped(m, s, i) && SameBlock(m, m1, Extent(s, i))
    ensures AreaMapped(m1, t, j)
  {
    hide Live;
    forall a | t[j].addr <= a < t[j + 1].addr && a % 4 == 0
      ensures a in m1
    {
      if a < t[j].addr + HEADER {
        assert t[j].addr <= t[|t| - 2].addr;
      }
    }
  }

  lemma AfterMove(m: Memory, m1: Memory, m2: Memory, m3: Memory, s: seq<Area>, t: seq<Area>, i: nat, k: nat, lo: int, hi: int)
    requires i < |s| - 1 && s[i].used && AreaMapped(m, s, i) && IsNewBlock(s, t, k) && Size(s, i) <= Size(t, k)
    requires forall x :: x in Live(s) ==> SameBlock(m, m1, x)
    requires forall x :: x in Live(s) ==> SameBlock(m, m2, x)
    requires forall x :: x in Live(t) ==> SameBlock(m2, m3, x)
    requires Copied(m1, m2, t[k].addr + HEADER, s[i].addr + HEADER, Size(s, i))
    ensures Copied(m, m3, t[k].addr + HEADER, s[i].addr + HEADER, Size(s, i))
    ensures forall x :: x in Live(s) ==> SameBlock(m, m3, x)
  {
    BlocksTwice(m, m2, m3, s, t);
    var src, dst, n := s[i].addr + HEADER, t[k].addr + HEADER, Size(s, i);
    assert Extent(s, i) in Live(s) && Extent(t, k) in Live(t);
    assert SameBlock(m, m1, Extent(s, i)) && SameBlock(m2, m3, Extent(t, k));
    hide Live;
    forall a | src <= a < src + n && a % 4 == 0
      ensures a in m && CopiedWord(m, m3, dst - src, a)
    {
      assert CopiedWord(m1, m2, dst - src, a);
      assert a in m && m1[a] == m[a];
    }
  }

  lemma SameBlocks(m: Memory, s: seq<Area>)
    ensures forall x :: x in Live(s) ==> SameBlock(m, m, x)
  {
  }

  lemma BlocksTwice(m: Memory, m1: Memory, m2: Memory, s: seq<Area>, s1: seq<Area>)
    requires forall x :: x in Live(s) ==> SameBlock(m, m1, x)
    requires forall x :: x in Live(s1) ==> SameBlock(m1, m2, x)
    requires Live(s) <= Live(s1)
    ensures forall x :: x in Live(s) ==> SameBlock(m, m2, x)
  {
    hide Live;
    forall x | x in Live(s)
      ensures SameBlock(m, m2, x)
    {
      assert SameBlock(m, m1, x) && SameBlock(m1, m2, x);
    }
  }

  // What kmalloc's cut of area k amounts to.
  lemma PlaceBytes(repaired: bool, s: seq<Area>, k: nat, z: int, lo: int, hi: int)
    requires Tiled(s, lo, hi) && k < |s| - 1 && Fits(s, Bytes(z), k) && z >= 2 * HEADER && z % 8 == 0
    ensures var split := Size(s, k) - z > 2 * HEADER;
      && CanInsert(s, k, s[k].addr, s[k].addr + z)
      && TailSplit(s, k, Bytes(z)) == split
      && Place(repaired, s, k, Bytes(z)) == Mark(if split then Insert(repaired, s, k, s[k].addr + z) else s, k)
      && Payload(s, k, Bytes(z)) == s[k].addr + HEADER && TailAddr(Bytes(z), s[k].addr) == s[k].addr + z
      && Size(s, k) > z
  {
    hide Insert, Live;
    TailRoom(s, k, Bytes(z), lo, hi);
  }

  // What kpagealloc's cut of area k amounts to.
  lemma PlacePages(repaired: bool, s: seq<Area>, k: nat, size: int, lo: int, hi: int)
    requires Tiled(s, lo, hi) && k < |s| - 1 && Fits(s, Pages(size), k) && size > 0 && size % PAGE_SIZE == 0
    ensures var r, a := Pages(size), s[k].addr;
      var n, f, i := NextPage(a), Fronted(s, k, r), PlacedIndex(s, k, r);
      && f == (if n - HEADER != a then Insert(true, s, k, n - HEADER) else s)
      && (n - HEADER != a ==> CanInsert(s, k, a, n - HEADER))
      && CanInsert(f, i, n - HEADER, n + size) && Live(f) == Live(s)
      && TailSplit(s, k, r) == (Size(s, k) - (size + (n - a) + HEADER) > 2 * HEADER)
      && Size(s, k) > size + (n - a) + HEADER
      && Place(repaired, s, k, r) == Mark(if TailSplit(s, k, r) then Insert(repaired, f, i, n + size) else f, i)
      && Payload(s, k, r) == n && TailAddr(r, a) == n + size
  {
    hide Insert, Live, PageFloor;
    TailRoom(s, k, Pages(size), lo, hi);
    FrontedFits(s, k, Pages(size), lo, hi);
    CutArithmetic(Pages(size), s[k].addr, s[k + 1].addr);
  }

  lemma PageMallocAt(repaired: bool, s: seq<Area>, n: Word, k: nat)
    requires |s| > 0 && 0 < n * PAGE_SIZE < 0x1_0000_0000 && BestFit(s, Pages(n * PAGE_SIZE)) == Some(k)
    ensures PageMalloc(repaired, s, n) ==
      (Place(repaired, s, k, Pages(n * PAGE_SIZE)), Payload(s, k, Pages(n * PAGE_SIZE)))
  {
    hide BestFit, Place, Payload;
    PagesRequest(repaired, s, n);
  }

  // kpagealloc maps from one page boundary to another.
  lemma WholePages(a: Word, size: int)
    requires size > 0 && size % PAGE_SIZE == 0 && NextPage(a) + size < 0x1_0000_0000
    ensures var n := NextPage(a);
      && n % PAGE_SIZE == 0 && (n + size) % PAGE_SIZE == 0
      && PageFloor(n + size) == n + size
      && 0 <= n - HEADER && T.PageOf(n - HEADER) + 1 == T.PageOf(n) == n / PAGE_SIZE
      && T.PageOf(n + size) == (n + size) / PAGE_SIZE
  {
    var q, s := a / PAGE_SIZE + 1, size / PAGE_SIZE;
    assert NextPage(a) == q * PAGE_SIZE && size == s * PAGE_SIZE;
    Multiples(q);
    Multiples(q + s);
    assert q * PAGE_SIZE - HEADER == (q - 1) * PAGE_SIZE + 4088;
  }

  lemma FrontOnSamePage(a: Word)
    requires a <= 0xFFC0_0000
    ensures T.PageOf(NextPage(a) - HEADER) == T.PageOf(a)
  {
    assert NextPage(a) - HEADER == a / PAGE_SIZE * PAGE_SIZE + 4088;
  }

  lemma DifferenceWithoutWrap(bestSize: Word, z: Word)
    requires z < bestSize
    ensures Sub32(bestSize, z) == bestSize - z
  {
  }

  lemma PageOfFloor(a: Word)
    ensures 0 <= PageFloor(a) <= a && PageFloor(a) % PAGE_SIZE == 0
    ensures T.PageOf(PageFloor(a)) == T.PageOf(a) == PageFloor(a) / PAGE_SIZE
  {
    FloorQuotient(a);
  }

  lemma FloorMonotone(a: Word, b: Word)
    requires a <= b
    ensures PageFloor(a) <= PageFloor(b)
  {
    assert PageFloor(a) == a / PAGE_SIZE * PAGE_SIZE && PageFloor(b) == b / PAGE_SIZE * PAGE_SIZE;
  }

  lemma FloorQuotient(a: int)
    ensures (a - a % PAGE_SIZE) % PAGE_SIZE == 0 && (a - a % PAGE_SIZE) / PAGE_SIZE == a / PAGE_SIZE
  {
    assert a - a % PAGE_SIZE == a / PAGE_SIZE * PAGE_SIZE;
  }

  lemma InsertKeepsIndex(link: bool, s: seq<Area>, k: nat, at: int)
    requires k < |s| - 1
    ensures Insert(link, s, k, at)[k] == s[k]
  {
  }

  lemma GoodAfterPlace(s: seq<Area>, k: nat, r: Request, lo: int, hi: int)
    requires Tiled(s, lo, hi) && Linked(s) && Coalesced(s)
    requires k < |s| - 1 && Fits(s, r, k) && Proper(r)
    ensures Linked(Place(true, s, k, r)) && Coalesced(Place(true, s, k, r))
  {
    hide Place, Fits, Linked, Coalesced;
    PlaceLinkedExactly(true, s, k, r, lo, hi);
    FitsIsFree(s, r, k);
    PlaceCoalesced(true, s, k, r);
  }

  lemma FitsIsFree(s: seq<Area>, r: Request, k: nat)
    requires k < |s| - 1 && Fits(s, r, k)
    ensures !s[k].used
  {
  }

  ghost predicate AllMapped(m: seq<T.PageFrame>, cr3: nat, first: int, last: int)
    requires T.Ram(m, cr3)
  {
    forall q: nat :: first <= q <= last ==> FrameOfRole(m, cr3, Backing(q)) != None
  }

  lemma AllMissingSame(m: seq<T.PageFrame>, m': seq<T.PageFrame>, cr3: nat)
    requires T.Ram(m, cr3) && T.Ram(m', cr3) && SameRoles(m, m', cr3)
    ensures forall first, last :: Missing(m', cr3, first, last) == Missing(m, cr3, first, last)
  {
    forall first, last
      ensures Missing(m', cr3, first, last) == Missing(m, cr3, first, last)
    {
      SameMissing(m, m', cr3, first, last);
    }
  }

  // The words of the first and the last page of the heap are there, and else
  // only what was there before.
  ghost predicate EndsAdded(v: Memory, v': Memory, lo: Word, hi: Word) {
    forall a: Word :: lo <= a < hi + HEADER && a % 4 == 0 ==>
      (a in v' <==> a in v || T.PageOf(a) == T.PageOf(lo) || T.PageOf(a) == T.PageOf(hi))
  }

  lemma EndsAddedBy(m: seq<T.PageFrame>, m1: seq<T.PageFrame>, m2: seq<T.PageFrame>, cr3: nat, lo: int, hi: int)
    requires T.Ram(m, cr3) && T.Ram(m1, cr3) && T.Ram(m2, cr3) && Bounds(lo, hi) && hi + HEADER <= 0xFFC0_0000
    requires OthersSame(m, m1, cr3, T.PageOf(lo)) && OthersSame(m1, m2, cr3, T.PageOf(hi))
    requires HasPage(View(m1, cr3, lo, hi + HEADER), lo, hi + HEADER, T.PageOf(lo))
    requires HasPage(View(m2, cr3, lo, hi + HEADER), lo, hi + HEADER, T.PageOf(hi))
    ensures EndsAdded(View(m, cr3, lo, hi + HEADER), View(m2, cr3, lo, hi + HEADER), lo, hi)
  {
    hide T.Translate, T.PageOf;
    forall a: Word | lo <= a < hi + HEADER && a % 4 == 0
      ensures a in View(m2, cr3, lo, hi + HEADER) <==>
        a in View(m, cr3, lo, hi + HEADER) || T.PageOf(a) == T.PageOf(lo) || T.PageOf(a) == T.PageOf(hi)
    {
      PageBounds(a);
    }
  }

  lemma FirstPage(m: seq<T.PageFrame>, cr3: nat, a: Word, b: Word)
    requires T.Ram(m, cr3) && T.PageOf(a) < T.WINDOW * T.ENTRIES && T.Translate(m, cr3, T.PageOf(a)) == None
    ensures Cost(Missing(m, cr3, T.PageOf(a), T.PageOf(a)) + Missing(m, cr3, T.PageOf(b), T.PageOf(b)))
      >= NewFrames(m, cr3, a)
  {
    hide Missing, Cost, T.PageOf, T.Translate;
    MissingPage(m, cr3, T.PageOf(a), T.PageOf(a), a);
    var first := Missing(m, cr3, T.PageOf(a), T.PageOf(a));
    SubsetCost(first, first + Missing(m, cr3, T.PageOf(b), T.PageOf(b)));
  }

  lemma SamePageFrames(m: seq<T.PageFrame>, cr3: nat, a: Word, b: Word)
    requires T.Ram(m, cr3) && T.PageOf(a) == T.PageOf(b)
    ensures NewFrames(m, cr3, a) == NewFrames(m, cr3, b)
  {
  }

  lemma StillAllMapped(m: seq<T.PageFrame>, m': seq<T.PageFrame>, cr3: nat, first: nat, page: nat)
    requires T.Ram(m, cr3) && T.Ram(m', cr3) && AllMapped(m, cr3, first, page - 1) && page < T.WINDOW * T.ENTRIES
    requires OthersSame(m, m', cr3, page) && T.Translate(m', cr3, page) != None
    ensures AllMapped(m', cr3, first, page)
  {
    hide T.Translate;
    forall q: nat | first <= q <= page
      ensures FrameOfRole(m', cr3, Backing(q)) != None
    {
      if q < page {
        assert FrameOfRole(m, cr3, Backing(q)) != None;
      }
    }
  }

  lemma FilledPage(m: seq<T.PageFrame>, m': seq<T.PageFrame>, cr3: nat, page: nat)
    requires T.Ram(m, cr3) && T.Ram(m', cr3) && Filled(m, m', cr3, page) && page < T.WINDOW * T.ENTRIES
    ensures T.Translate(m', cr3, page) != None
  {
    hide T.Translate;
    assert FrameOfRole(m', cr3, Backing(page)) != None;
  }

  // All heap words on these pages are mapped.
  ghost predicate HasPages(v: Memory, lo: int, hi: int, first: int, last: int) {
    forall q: nat :: first <= q <= last ==> HasPage(v, lo, hi, q)
  }

  lemma PagesExtend(v: Memory, v': Memory, lo: int, hi: int, first: int, page: nat)
    requires Extends(v, v') && HasPages(v, lo, hi, first, page - 1) && HasPage(v', lo, hi, page)
    ensures HasPages(v', lo, hi, first, page)
  {
    forall q: nat | first <= q <= page
      ensures HasPage(v', lo, hi, q)
    {
      if q < page {
        assert HasPage(v, lo, hi, q);
      }
    }
  }

  lemma MappedHasPage(m: seq<T.PageFrame>, cr3: nat, lo: int, hi: int, page: nat)
    requires T.Ram(m, cr3) && page < T.FRAMES && T.Translate(m, cr3, page).Some? && 0 <= lo && hi <= 0xFFC0_0000
    ensures HasPage(View(m, cr3, lo, hi), lo, hi, page)
  {
  }

  lemma ExtendsItself(v: Memory)
    ensures Extends(v, v)
  {
  }

  lemma ExtendsTransitive(a: Memory, b: Memory, c: Memory)
    requires Extends(a, b) && Extends(b, c)
    ensures Extends(a, c)
  {
  }

  lemma PageSteps(start: Word, p: int, end: Word)
    requires start % PAGE_SIZE == 0 && end % PAGE_SIZE == 0 && p % PAGE_SIZE == 0
    requires start <= p <= end + PAGE_SIZE
    ensures p <= end ==> p < 0x1_0000_0000 && T.PageOf(start) <= T.PageOf(p) <= T.PageOf(end)
    ensures (p + PAGE_SIZE) / PAGE_SIZE == p / PAGE_SIZE + 1 && (p + PAGE_SIZE) % PAGE_SIZE == 0
    ensures p <= end ==> p + PAGE_SIZE <= end + PAGE_SIZE
    ensures p > end ==> p / PAGE_SIZE - 1 == T.PageOf(end)
  {
  }

  // No managed page is backed by frame 0, so null from get_physaddr means
  // that the page is not mapped.
  lemma MappedUnlessNull(m: seq<T.PageFrame>, cr3: nat, first: nat, last: nat, free: set<nat>, p: nat)
    requires Ownership(m, cr3, first, last, free) && first <= p <= last && p < T.WINDOW * T.ENTRIES
    ensures T.Translate(m, cr3, p) != Some(0)
  {
    if T.Translate(m, cr3, p).Some? {
      BackingApart(m, cr3, first, last, free, p);
    }
  }
}
