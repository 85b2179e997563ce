// The virtual address space of the kernel: page tables in physical memory,
// read and written through the recursive self-map, on top of the frame allocator.
module AddressSpaces {
  import opened Words
  import opened Frames
  import T = PageTables
  import R = FrameRoles
  import B = FrameBudgets
  import E = PageEntries

  class AddressSpace {
    // The frame of the page directory (in CR3), and physical memory.
    const cr3: nat
    const phys: array<T.PageFrame>
    const frames: FrameAllocator

    constructor (cr3: nat, phys: array<T.PageFrame>, frames: FrameAllocator)
      ensures this.cr3 == cr3 && this.phys == phys && this.frames == frames
    {
      this.cr3 := cr3;
      this.phys := phys;
      this.frames := frames;
    }

    // The directory maps itself, tables are distinct, and no free frame is one
    // of them: the state that the boot code leaves behind.
    ghost predicate Valid()
      reads this, phys, frames, frames.bitmap
    {
      && T.WellFormed(phys[..], cr3)
      && E.WritableTables(phys[..], cr3)
      && frames.Valid()
      && forall f :: f in frames.Free() ==> T.NoTable(phys[..], cr3, f)
    }

    predicate Accessible(va: Word)
      reads phys
    {
      T.Ram(phys[..], cr3) && T.Translate(phys[..], cr3, T.PageOf(va)).Some?
    }

    // A load or store of the word at va by the processor.
    function Load(va: Word): Word
      requires Accessible(va)
      reads phys
    {
      phys[T.Translate(phys[..], cr3, T.PageOf(va)).value][T.WordIndex(va)]
    }

    // A store to a page that does not allow writing would fault.
    method Store(va: Word, w: Word)
      requires Accessible(va) && E.Writable(phys[..], cr3, T.PageOf(va))
      modifies phys
      ensures phys[..] == T.Poke(old(phys[..]), T.Translate(old(phys[..]), cr3, T.PageOf(va)).value, T.WordIndex(va), w)
    {
      var f := T.Translate(phys[..], cr3, T.PageOf(va)).value;
      phys[f] := phys[f][T.WordIndex(va) := w];
    }

    // get_physaddr equals the two-level translation; 0 also stands for "not mapped".
    method GetPhysaddr(va: Word) returns (pa: Word)
      requires T.SelfMapped(phys[..], cr3)
      ensures match T.Translate(phys[..], cr3, T.PageOf(va))
        case None => pa == 0
        case Some(f) => pa == PAGE_SIZE * f + va % PAGE_SIZE
    {
      var pdindex, ptindex := T.PageOf(va) / T.ENTRIES, T.PageOf(va) % T.ENTRIES;
      var offset := va % PAGE_SIZE;
      T.RecursiveMap(phys[..], cr3, pdindex, ptindex);
      var pt := Load(T.PdeAddress(pdindex));
      if !T.Present(pt) {
        return 0;
      }
      var page := Load(T.PteAddress(pdindex, ptindex));
      if !T.Present(page) {
        return 0;
      }
      pa := PageFloor(page) + offset;
    }

    // What get_page returns next (any frame but the directory when none is left).
    ghost function Spare(): (f: nat)
      requires T.Ram(phys[..], cr3)
      reads frames, frames.bitmap, phys
    {
      match frames.State().next
      case Some(f) => f
      case None => (cr3 + 1) % T.FRAMES
    }

    // memset(pt, 0, PAGE_SIZE), word by word through the window.
    method ClearTable(pd: nat, ghost table: nat)
      requires T.SelfMapped(phys[..], cr3) && pd < T.WINDOW
      requires T.TableOf(phys[..], cr3, pd) == Some(table) && table != cr3 && E.WritableTables(phys[..], cr3)
      modifies phys
      ensures phys[..] == old(phys[..])[table := T.ZEROS]
    {
      ghost var m := phys[..];
      assert Cleared(m[table], 0) == m[table];
      assert m[table := m[table]] == m;
      for k := 0 to T.ENTRIES
        invariant phys[..] == m[table := Cleared(m[table], k)]
      {
        ClearedKeepsMap(m, cr3, pd, table, k);
        T.RecursiveMap(phys[..], cr3, pd, k);
        E.SameDirectory(m, phys[..], cr3);
        E.WritableWindow(phys[..], cr3, pd, k);
        hide T.TableOf, T.Translate, E.Writable;
        Store(T.PteAddress(pd, k), 0);
        assert Cleared(m[table], k)[k := 0] == Cleared(m[table], k + 1);
      }
      assert Cleared(m[table], T.ENTRIES) == T.ZEROS;
    }

    // The first half of map_page: give directory entry pd a table if it has none.
    method ProvideTable(pd: nat)
      requires Valid() && pd < T.ENTRIES
      requires T.TableOf(phys[..], cr3, pd).None? ==> frames.nextIndex < frames.bitmap.Length
      modifies phys, frames, frames.bitmap
      ensures phys[..] == T.WithTable(old(phys[..]), cr3, pd, old(Spare()))
      ensures frames.Valid()
      ensures frames.State() ==
        if T.TableOf(old(phys[..]), cr3, pd).None? then old(frames.State()).Get() else old(frames.State())
    {
      hide T.Translate, T.Present, E.Writable, E.Bit, T.WithTable, T.Poke, T.DistinctTables, FreeFrames;
      ghost var m, spare := phys[..], Spare();
      ProvidedMemory(m, cr3, pd, spare);
      T.RecursiveMap(m, cr3, pd, 0);
      E.WritableWindow(m, cr3, pd, 0);
      var pde := Load(T.PdeAddress(pd));
      if !T.Present(pde) {
        var page := frames.GetPage();
        assert page + 3 == spare * PAGE_SIZE + 3;
        Store(T.PdeAddress(pd), page + 0x3);
        PokedDirectory(m, cr3, pd, spare);
        E.NewEntryWritable(m, cr3, pd, spare);
        ClearTable(pd, spare);
      }
    }

    method MapPage(pa: Word, va: Word, flags: Word) returns (err: int)
      requires Valid()
      requires pa % PAGE_SIZE == 0 && va % PAGE_SIZE == 0 && R.NeedsTable(phys[..], cr3, va) ==>
                 frames.nextIndex < frames.bitmap.Length
      modifies phys, frames, frames.bitmap
      ensures (err, phys[..]) == T.MapPage(old(phys[..]), cr3, old(Spare()), pa, va, flags)
      ensures va < 0xFFC0_0000 ==>
        && err == E.MapError(old(phys[..]), cr3, pa, va)
        && (if err == 0 then E.PageStored(old(phys[..]), phys[..], cr3, old(Spare()), pa, va, flags)
            else phys[..] == old(phys[..]))
      ensures frames.Valid()
      ensures frames.State() ==
        if pa % PAGE_SIZE == 0 && va % PAGE_SIZE == 0 && R.NeedsTable(old(phys[..]), cr3, va)
        then old(frames.State()).Get() else old(frames.State())
    {
      Stores(pa, va, flags);
      if pa % PAGE_SIZE != 0 {
        return T.PHYSADDR_UNALIGNED;
      } else if va % PAGE_SIZE != 0 {
        return T.VIRTUALADDR_UNALIGNED;
      }
      var pdindex, ptindex := T.PageOf(va) / T.ENTRIES, T.PageOf(va) % T.ENTRIES;
      ghost var m, spare := phys[..], Spare();
      ProvidedTable(m, cr3, pdindex, spare);
      ProvideTable(pdindex);
      T.RecursiveMap(phys[..], cr3, pdindex, ptindex);
      WithTableWritable(m, cr3, pdindex, spare);
      E.WritableWindow(phys[..], cr3, pdindex, ptindex);
      hide T.Translate, T.WithTable, Valid, frames.Valid, E.Writable, E.WritableTables;
      var pte := Load(T.PteAddress(pdindex, ptindex));
      if T.Present(pte) {
        return T.ALREADY_PRESENT;
      }
      Store(T.PteAddress(pdindex, ptindex), T.Entry(pa, flags));
      return 0;
    }

    // What map_page is about to store.
    lemma Stores(pa: Word, va: Word, flags: Word)
      requires Valid()
      requires pa % PAGE_SIZE == 0 && va % PAGE_SIZE == 0 && R.NeedsTable(phys[..], cr3, va) ==>
                 frames.nextIndex < frames.bitmap.Length
      ensures va < 0xFFC0_0000 ==>
        var (e, m') := T.MapPage(phys[..], cr3, Spare(), pa, va, flags);
        && T.Ram(m', cr3) && e == E.MapError(phys[..], cr3, pa, va)
        && (if e == 0 then E.PageStored(phys[..], m', cr3, Spare(), pa, va, flags) else m' == phys[..])
    {
      hide T.MapPage, T.PageOf, E.PageStored, FreeFrames, T.Present;
      if va < 0xFFC0_0000 && pa % PAGE_SIZE == 0 && va % PAGE_SIZE == 0 {
        E.MapPageStores(phys[..], cr3, Spare(), pa, va, flags);
      } else if va < 0xFFC0_0000 {
        E.MapPageFails(phys[..], cr3, Spare(), pa, va, flags);
      }
    }

    // map_page(get_page(), va, flags). spare is the frame of the new table; if
    // none is needed it stands for any frame.
    method MapFresh(va: Word, flags: Word) returns (ghost frame: Word, ghost spare: nat)
      requires Valid() && va % PAGE_SIZE == 0 && frames.FreeCount() >= B.NewFrames(phys[..], cr3, va)
      modifies phys, frames, frames.bitmap
      ensures frame % PAGE_SIZE == 0 && T.FrameOf(frame) in old(frames.Free())
      ensures spare in old(frames.Free()) && spare < T.FRAMES && spare != cr3
      ensures R.NeedsTable(old(phys[..]), cr3, va) ==> spare != T.FrameOf(frame)
      ensures phys[..] == T.MapPage(old(phys[..]), cr3, spare, frame, va, flags).1
      ensures frames.Valid()
      ensures frames.Free() == old(frames.Free()) - {T.FrameOf(frame)} - R.Taken(old(phys[..]), cr3, va, spare)
      ensures frames.FreeCount() == old(frames.FreeCount()) - B.NewFrames(old(phys[..]), cr3, va)
    {
      ghost var free := frames.Free();
      OneLeft(free);
      var page := frames.GetPage();
      frame := page;
      FrameOfPage(page, old(frames.State()).next.value);
      hide T.WellFormed, T.NoTable, T.MapPage, T.FrameOf;
      assert frames.Free() == free - {T.FrameOf(frame)};
      spare := T.FrameOf(frame);
      if R.NeedsTable(phys[..], cr3, va) {
        TwoLeft(free, T.FrameOf(frame));
        spare := Spare();
      }
      NotDirectory(phys[..], cr3, spare);
      ghost var m := phys[..];
      SpareOnlyIfNeeded(m, cr3, Spare(), spare, page, va, flags);
      var err := MapPage(page, va, flags);
      FramesTaken(free, T.FrameOf(frame), spare, m, cr3, va);
    }
  }

  lemma FrameOfPage(page: Word, f: nat)
    requires page == PAGE_SIZE * f
    ensures page % PAGE_SIZE == 0 && T.FrameOf(page) == f
  {
  }

  lemma OneLeft(s: set<nat>)
    requires Count(s) >= 1
    ensures s != {}
  {
  }

  lemma TwoLeft(s: set<nat>, x: nat)
    requires |s| >= 2 && x in s
    ensures s - {x} != {}
  {
    assert |s - {x}| == |s| - 1;
  }

  lemma FramesTaken(free: set<nat>, f: nat, spare: nat, m: seq<T.PageFrame>, cr3: nat, va: Word)
    requires T.Ram(m, cr3) && f in free && spare in free
    requires R.NeedsTable(m, cr3, va) ==> spare != f
    ensures Count(free - {f} - R.Taken(m, cr3, va, spare)) == Count(free) - B.NewFrames(m, cr3, va)
  {
    hide R.NeedsTable;
    var rest := free - {f};
    assert |rest| == |free| - 1;
    if R.NeedsTable(m, cr3, va) {
      assert |rest - {spare}| == |rest| - 1;
    }
    assert rest - {} == rest;
  }

  // map_page does not look at the spare frame if the table is there.
  lemma SpareOnlyIfNeeded(m: seq<T.PageFrame>, cr3: nat, s1: nat, s2: nat, pa: Word, va: Word, flags: nat)
    requires T.Ram(m, cr3) && s1 < T.FRAMES && s1 != cr3 && s2 < T.FRAMES && s2 != cr3
    requires R.NeedsTable(m, cr3, va) ==> s1 == s2
    ensures T.MapPage(m, cr3, s1, pa, va, flags) == T.MapPage(m, cr3, s2, pa, va, flags)
  {
  }

  lemma NotDirectory(m: seq<T.PageFrame>, cr3: nat, f: nat)
    requires T.Ram(m, cr3) && T.NoTable(m, cr3, f)
    ensures f != cr3
  {
  }

  lemma ClearedKeepsMap(m: seq<T.PageFrame>, cr3: nat, pd: nat, table: nat, k: nat)
    requires T.SelfMapped(m, cr3) && pd < T.WINDOW && k <= T.ENTRIES
    requires T.TableOf(m, cr3, pd) == Some(table) && table != cr3
    ensures var m' := m[table := Cleared(m[table], k)];
      T.SelfMapped(m', cr3) && T.TableOf(m', cr3, pd) == Some(table)
  {
    assert m[table := Cleared(m[table], k)][cr3] == m[cr3];
  }

  lemma PokedDirectory(m: seq<T.PageFrame>, cr3: nat, pd: nat, f: nat)
    requires T.SelfMapped(m, cr3) && pd < T.WINDOW && f < T.FRAMES
    ensures var m' := T.Poke(m, cr3, pd, f * PAGE_SIZE + 3);
      T.SelfMapped(m', cr3) && T.TableOf(m', cr3, pd) == Some(f)
  {
    T.TableEntry(f);
    hide T.Present, T.FrameOf;
  }

  lemma ProvidedMemory(m: seq<T.PageFrame>, cr3: nat, pd: nat, spare: nat)
    requires T.Ram(m, cr3) && pd < T.ENTRIES && spare < T.FRAMES
    ensures T.WithTable(m, cr3, pd, spare) ==
      if T.Present(T.Pde(m, cr3, pd)) then m else T.Poke(m, cr3, pd, spare * PAGE_SIZE + 3)[spare := T.ZEROS]
  {
  }

  lemma WithTableWritable(m: seq<T.PageFrame>, cr3: nat, pd: nat, spare: nat)
    requires T.Ram(m, cr3) && E.WritableTables(m, cr3) && pd < T.ENTRIES && spare < T.FRAMES && spare != cr3
    ensures E.WritableTables(T.WithTable(m, cr3, pd, spare), cr3)
  {
    hide T.Present, T.FrameOf, E.Bit;
    E.NewEntryWritable(m, cr3, pd, spare);
    E.SameDirectory(T.Poke(m, cr3, pd, spare * PAGE_SIZE + 3), T.Poke(m, cr3, pd, spare * PAGE_SIZE + 3)[spare := T.ZEROS], cr3);
  }

  lemma ProvidedTable(m: seq<T.PageFrame>, cr3: nat, pd: nat, spare: nat)
    requires T.SelfMapped(m, cr3) && pd < T.ENTRIES && spare < T.FRAMES && spare != cr3
    ensures var m' := T.WithTable(m, cr3, pd, spare);
      && T.SelfMapped(m', cr3)
      && T.TableOf(m', cr3, pd) == Some(T.FrameOf(T.Pde(m', cr3, pd)))
  {
    T.TableEntry(spare);
    hide T.Present, T.FrameOf;
  }

  // Frame f with its first k words zeroed.
  function Cleared(f: T.PageFrame, k: nat): T.PageFrame
    requires k <= T.ENTRIES
  {
    T.Zeros(k) + f[k..]
  }
}
