// i386 paging with 4 KiB pages as a function on physical memory: the two-level
// walk of the hardware, the recursive self-map, and what map_page does to them.
module PageTables {
  import opened Words

  const FRAMES: nat := 0x10_0000
  const ENTRIES: nat := 0x400

  // The words of one physical frame; physical memory is a sequence of these.
  type PageFrame = f: seq<Word> | |f| == ENTRIES witness Zeros(ENTRIES)

  function Zeros(n: nat): (z: seq<Word>)
    ensures |z| == n && forall i :: 0 <= i < n ==> z[i] == 0
  {
    if n == 0 then [] else Zeros(n - 1) + [0]
  }

  const ZEROS: PageFrame := Zeros(ENTRIES)

  predicate Ram(m: seq<PageFrame>, cr3: nat) {
    |m| == FRAMES && cr3 < FRAMES
  }

  function Poke(m: seq<PageFrame>, f: nat, i: nat, w: Word): (m': seq<PageFrame>)
    requires f < |m| && i < ENTRIES
    ensures |m'| == |m|
  {
    m[f := m[f][i := w]]
  }

  // Bit 0 of a directory or table entry, and the frame it names.
  predicate Present(entry: Word) {
    entry % 2 == 1
  }

  function FrameOf(entry: Word): (f: nat)
    ensures f < FRAMES
  {
    entry / PAGE_SIZE
  }

  function Pde(m: seq<PageFrame>, cr3: nat, i: nat): Word
    requires Ram(m, cr3) && i < ENTRIES
  {
    m[cr3][i]
  }

  // The page table that directory entry i names.
  function TableOf(m: seq<PageFrame>, cr3: nat, i: nat): Option<nat>
    requires Ram(m, cr3) && i < ENTRIES
  {
    if Present(Pde(m, cr3, i)) then Some(FrameOf(Pde(m, cr3, i))) else None
  }

  // The hardware's walk: the frame that backs a virtual page.
  function Translate(m: seq<PageFrame>, cr3: nat, page: nat): (f: Option<nat>)
    requires Ram(m, cr3) && page < FRAMES
    ensures f.Some? ==> f.value < FRAMES
  {
    var table := TableOf(m, cr3, page / ENTRIES);
    if table.None? then None
    else
      var pte := m[table.value][page % ENTRIES];
      if Present(pte) then Some(FrameOf(pte)) else None
  }

  function PageOf(va: Word): (p: nat)
    ensures p < FRAMES
  {
    va / PAGE_SIZE
  }

  function WordIndex(va: Word): (i: nat)
    ensures i < ENTRIES
  {
    va % PAGE_SIZE / 4
  }

  // ---------- The recursive self-map ----------

  const WINDOW: nat := 1023

  // Directory entry 1023 names the directory itself.
  predicate SelfMapped(m: seq<PageFrame>, cr3: nat) {
    Ram(m, cr3) && TableOf(m, cr3, WINDOW) == Some(cr3)
  }

  // (uint32_t*)(0xFFFFF000 | pdindex << 2)
  function PdeAddress(pd: nat): Word
    requires pd < ENTRIES
  {
    0xFFFF_F000 + 4 * pd
  }

  // (uint32_t*)(0xFFC00000 | pdindex << 12 | ptindex << 2)
  function PteAddress(pd: nat, pt: nat): Word
    requires pd < ENTRIES && pt < ENTRIES
  {
    0xFFC0_0000 + PAGE_SIZE * pd + 4 * pt
  }

  // Under the hardware's walk these two virtual addresses are exactly the
  // words of directory entry pd and of table entry pt of that directory entry.
  lemma RecursiveMap(m: seq<PageFrame>, cr3: nat, pd: nat, pt: nat)
    requires SelfMapped(m, cr3) && pd < ENTRIES && pt < ENTRIES
    ensures Translate(m, cr3, PageOf(PdeAddress(pd))) == Some(cr3) && WordIndex(PdeAddress(pd)) == pd
    ensures Translate(m, cr3, PageOf(PteAddress(pd, pt))) == TableOf(m, cr3, pd)
    ensures WordIndex(PteAddress(pd, pt)) == pt
  {
    assert PageOf(PdeAddress(pd)) == 0xF_FFFF == WINDOW * ENTRIES + WINDOW;
    assert PteAddress(pd, pt) == (0xF_FC00 + pd) * PAGE_SIZE + 4 * pt;
    assert PageOf(PteAddress(pd, pt)) == 0xF_FC00 + pd == WINDOW * ENTRIES + pd;
  }

  // ---------- map_page ----------

  const PHYSADDR_UNALIGNED := 3
  const VIRTUALADDR_UNALIGNED := 4
  const ALREADY_PRESENT := 5

  // pa | (flags & 0xFFF) | 1
  function Entry(pa: Word, flags: nat): Word
    requires pa % PAGE_SIZE == 0
  {
    pa + flags % PAGE_SIZE / 2 * 2 + 1
  }

  // The memory after a missing table has been replaced by the zeroed frame.
  function WithTable(m: seq<PageFrame>, cr3: nat, pd: nat, spare: nat): (m': seq<PageFrame>)
    requires Ram(m, cr3) && pd < ENTRIES && spare < FRAMES
    ensures |m'| == |m|
  {
    if Present(Pde(m, cr3, pd)) then m else Poke(m, cr3, pd, spare * PAGE_SIZE + 3)[spare := ZEROS]
  }

  // map_page: error code and memory. spare is what get_page returns if asked.
  function MapPage(m: seq<PageFrame>, cr3: nat, spare: nat, pa: Word, va: Word, flags: nat):
      (r: (int, seq<PageFrame>))
    requires Ram(m, cr3) && spare < FRAMES && spare != cr3
  {
    if pa % PAGE_SIZE != 0 then (PHYSADDR_UNALIGNED, m)
    else if va % PAGE_SIZE != 0 then (VIRTUALADDR_UNALIGNED, m)
    else
      var pd, pt := PageOf(va) / ENTRIES, PageOf(va) % ENTRIES;
      var m1 := WithTable(m, cr3, pd, spare);
      var table := FrameOf(Pde(m1, cr3, pd));
      if Present(m1[table][pt]) then (ALREADY_PRESENT, m1)
      else (0, Poke(m1, table, pt, Entry(pa, flags)))
  }

  // The tables of the directory entries below the window are distinct frames,
  // none of them the directory.
  predicate DistinctTables(m: seq<PageFrame>, cr3: nat)
    requires Ram(m, cr3)
  {
    && (forall i: nat :: i < WINDOW ==> TableOf(m, cr3, i) != Some(cr3))
    && forall i: nat, j: nat :: i < j < WINDOW && TableOf(m, cr3, i).Some? ==>
         TableOf(m, cr3, i) != TableOf(m, cr3, j)
  }

  predicate WellFormed(m: seq<PageFrame>, cr3: nat) {
    SelfMapped(m, cr3) && DistinctTables(m, cr3)
  }

  // f is neither the directory nor a table.
  predicate NoTable(m: seq<PageFrame>, cr3: nat, f: nat)
    requires Ram(m, cr3)
  {
    f != cr3 && forall i: nat :: i < WINDOW ==> TableOf(m, cr3, i) != Some(f)
  }

  // An odd number between two multiples of the page size.
  lemma OddInPage(f: int, g: int)
    requires 0 <= g < 2048
    ensures (f * 4096 + (2 * g + 1)) % 2 == 1
    ensures (f * 4096 + (2 * g + 1)) / 4096 == f
  {
    Odd(f * 2048 + g);
    PageQuotient(f, 2 * g + 1);
  }

  lemma Odd(h: int)
    ensures (2 * h + 1) % 2 == 1
  {
  }

  lemma PageQuotient(f: int, r: int)
    requires 0 <= r < 4096
    ensures (f * 4096 + r) / 4096 == f
  {
  }

  lemma HalfPage(flags: nat)
    ensures 0 <= flags % PAGE_SIZE / 2 < 2048
  {
  }

  lemma EntryNames(pa: Word, flags: nat)
    requires pa % PAGE_SIZE == 0
    ensures Present(Entry(pa, flags)) && FrameOf(Entry(pa, flags)) == FrameOf(pa)
  {
    var f, g := pa / PAGE_SIZE, flags % PAGE_SIZE / 2;
    assert pa == f * 4096;
    HalfPage(flags);
    OddInPage(f, g);
    assert Entry(pa, flags) == f * 4096 + (2 * g + 1);
  }

  lemma TableEntry(f: nat)
    requires f < FRAMES
    ensures Present(f * PAGE_SIZE + 3) && FrameOf(f * PAGE_SIZE + 3) == f
  {
    OddInPage(f, 1);
  }

  // A new, zeroed table changes no translation outside the window.
  lemma WithTableKeeps(m: seq<PageFrame>, cr3: nat, pd: nat, spare: nat)
    requires WellFormed(m, cr3) && pd < WINDOW && spare < FRAMES && NoTable(m, cr3, spare)
    ensures var m' := WithTable(m, cr3, pd, spare);
      && WellFormed(m', cr3)
      && TableOf(m', cr3, pd).Some?
      && (forall i: nat :: i < WINDOW && i != pd ==> TableOf(m', cr3, i) == TableOf(m, cr3, i))
      && TableOf(m', cr3, pd) == (if TableOf(m, cr3, pd).Some? then TableOf(m, cr3, pd) else Some(spare))
      && (forall p: nat :: p < WINDOW * ENTRIES ==> Translate(m', cr3, p) == Translate(m, cr3, p))
  {
    var m' := WithTable(m, cr3, pd, spare);
    TableEntry(spare);
    forall i: nat | i <= WINDOW
      ensures TableOf(m', cr3, i) == if i == pd && TableOf(m, cr3, i).None? then Some(spare) else TableOf(m, cr3, i)
    {
      assert m'[cr3] == (if Present(Pde(m, cr3, pd)) then m[cr3] else m[cr3][pd := spare * PAGE_SIZE + 3]);
    }
    hide TableOf, WithTable;
    assert SelfMapped(m', cr3);
    assert DistinctTables(m', cr3);
  }

  // Writing a table entry changes no directory entry.
  lemma TableWriteKeeps(m: seq<PageFrame>, cr3: nat, pd: nat, pt: nat, w: Word)
    requires WellFormed(m, cr3) && pd < WINDOW && pt < ENTRIES && TableOf(m, cr3, pd).Some?
    ensures var m' := Poke(m, TableOf(m, cr3, pd).value, pt, w);
      && WellFormed(m', cr3)
      && (forall i: nat :: i < ENTRIES ==> TableOf(m', cr3, i) == TableOf(m, cr3, i))
      && (forall p: nat :: p < WINDOW * ENTRIES && p != pd * ENTRIES + pt ==>
            Translate(m', cr3, p) == Translate(m, cr3, p))
      && Translate(m', cr3, pd * ENTRIES + pt) == (if Present(w) then Some(FrameOf(w)) else None)
  {
    var m' := Poke(m, TableOf(m, cr3, pd).value, pt, w);
    assert m'[cr3] == m[cr3];
    assert forall i: nat :: i < ENTRIES ==> TableOf(m', cr3, i) == TableOf(m, cr3, i);
    hide TableOf, Present, FrameOf;
    forall p: nat | p < WINDOW * ENTRIES && p != pd * ENTRIES + pt
      ensures Translate(m', cr3, p) == Translate(m, cr3, p)
    {
      assert p / ENTRIES != pd || p % ENTRIES != pt;
    }
    assert (pd * ENTRIES + pt) / ENTRIES == pd && (pd * ENTRIES + pt) % ENTRIES == pt;
  }

  // map_page fails exactly on unaligned addresses and pages that are mapped,
  // and then changes nothing. Otherwise the page now translates to pa, every
  // other page below the window translates as before, and the self-map and the
  // distinctness of tables survive; also when a new table had to be made.
  lemma MapPageAddsOne(m: seq<PageFrame>, cr3: nat, spare: nat, pa: Word, va: Word, flags: nat)
    requires WellFormed(m, cr3) && spare < FRAMES && NoTable(m, cr3, spare)
    requires PageOf(va) < WINDOW * ENTRIES
    ensures var (e, m') := MapPage(m, cr3, spare, pa, va, flags);
      && WellFormed(m', cr3)
      && (e == 0 <==> pa % PAGE_SIZE == 0 && va % PAGE_SIZE == 0 && Translate(m, cr3, PageOf(va)) == None)
      && (e != 0 ==> m' == m)
      && (e == 0 ==> Translate(m', cr3, PageOf(va)) == Some(FrameOf(pa)))
      && (forall p: nat :: p < WINDOW * ENTRIES && p != PageOf(va) ==>
            Translate(m', cr3, p) == Translate(m, cr3, p))
  {
    if pa % PAGE_SIZE == 0 && va % PAGE_SIZE == 0 {
      var pd, pt := PageOf(va) / ENTRIES, PageOf(va) % ENTRIES;
      var m1 := WithTable(m, cr3, pd, spare);
      WithTableKeeps(m, cr3, pd, spare);
      TableWriteKeeps(m1, cr3, pd, pt, Entry(pa, flags));
      EntryNames(pa, flags);
      assert Translate(m1, cr3, PageOf(va)) == Translate(m, cr3, PageOf(va));
      hide Entry, PageOf, FrameOf, Present, DistinctTables, SelfMapped;
    }
  }
}

// Which frame serves what: the roles that frames play for a range of managed
// virtual pages, and that growing the range keeps one role per frame.
module FrameRoles {
  import opened Words
  import opened PageTables

  datatype Role = Directory | Table(pd: nat) | Backing(page: nat)

  // Roles of interest: the tables below the window, the pages first..last.
  predicate InRange(r: Role, first: nat, last: nat) {
    match r
    case Directory => true
    case Table(pd) => pd < WINDOW
    case Backing(page) => first <= page <= last && page < WINDOW * ENTRIES
  }

  function FrameOfRole(m: seq<PageFrame>, cr3: nat, r: Role): Option<nat>
    requires Ram(m, cr3)
  {
    match r
    case Directory => Some(cr3)
    case Table(pd) => if pd < WINDOW then TableOf(m, cr3, pd) else None
    case Backing(page) => if page < WINDOW * ENTRIES then Translate(m, cr3, page) else None
  }

  ghost predicate OneRole(m: seq<PageFrame>, cr3: nat, first: nat, last: nat)
    requires Ram(m, cr3)
  {
    forall r: Role, q: Role ::
      InRange(r, first, last) && InRange(q, first, last) && FrameOfRole(m, cr3, r).Some? ==>
      FrameOfRole(m, cr3, r) == FrameOfRole(m, cr3, q) ==>
      r == q
  }

  // No frame with a role is free. Frame 0 is neither.
  ghost predicate InUse(m: seq<PageFrame>, cr3: nat, first: nat, last: nat, free: set<nat>)
    requires Ram(m, cr3)
  {
    forall r: Role :: InRange(r, first, last) && FrameOfRole(m, cr3, r).Some? ==>
      FrameOfRole(m, cr3, r).value !in free && FrameOfRole(m, cr3, r).value != 0
  }

  ghost predicate Ownership(m: seq<PageFrame>, cr3: nat, first: nat, last: nat, free: set<nat>) {
    && SelfMapped(m, cr3)
    && OneRole(m, cr3, first, last)
    && InUse(m, cr3, first, last, free)
    && 0 !in free
    && forall f :: f in free ==> f < FRAMES
  }

  lemma OwnedTables(m: seq<PageFrame>, cr3: nat, first: nat, last: nat, free: set<nat>)
    requires Ownership(m, cr3, first, last, free)
    ensures WellFormed(m, cr3)
    ensures forall f :: f in free ==> NoTable(m, cr3, f)
  {
    forall i: nat | i < WINDOW
      ensures TableOf(m, cr3, i) != Some(cr3)
      ensures TableOf(m, cr3, i).Some? ==> TableOf(m, cr3, i).value !in free
    {
      assert FrameOfRole(m, cr3, Table(i)) == TableOf(m, cr3, i);
      assert FrameOfRole(m, cr3, Directory) == Some(cr3);
      assert Table(i) != Directory;
    }
    forall i: nat, j: nat | i < j < WINDOW && TableOf(m, cr3, i).Some?
      ensures TableOf(m, cr3, i) != TableOf(m, cr3, j)
    {
      assert FrameOfRole(m, cr3, Table(i)) == TableOf(m, cr3, i);
      assert FrameOfRole(m, cr3, Table(j)) == TableOf(m, cr3, j);
      assert Table(i) != Table(j);
    }
    assert FrameOfRole(m, cr3, Directory) == Some(cr3);
  }

  // Does mapping va take a frame for a new table?
  predicate NeedsTable(m: seq<PageFrame>, cr3: nat, va: Word)
    requires Ram(m, cr3)
  {
    TableOf(m, cr3, PageOf(va) / ENTRIES).None?
  }

  function Taken(m: seq<PageFrame>, cr3: nat, va: Word, spare: nat): set<nat>
    requires Ram(m, cr3)
  {
    if NeedsTable(m, cr3, va) then {spare} else {}
  }

  function NewRole(m: seq<PageFrame>, cr3: nat, spare: nat, pa: Word, va: Word, r: Role): Option<nat>
    requires Ram(m, cr3)
  {
    if r == Backing(PageOf(va)) then Some(FrameOf(pa))
    else if r == Table(PageOf(va) / ENTRIES) && NeedsTable(m, cr3, va) then Some(spare)
    else FrameOfRole(m, cr3, r)
  }

  // What map_page does to the roles: the page gets its backing, a missing
  // table gets the spare frame, and nothing else changes.
  lemma MapPageRoles(m: seq<PageFrame>, cr3: nat, spare: nat, pa: Word, va: Word, flags: nat)
    requires WellFormed(m, cr3) && spare < FRAMES && NoTable(m, cr3, spare)
    requires PageOf(va) < WINDOW * ENTRIES && MapPage(m, cr3, spare, pa, va, flags).0 == 0
    ensures var m' := MapPage(m, cr3, spare, pa, va, flags).1;
      Ram(m', cr3) && forall r: Role :: FrameOfRole(m', cr3, r) == NewRole(m, cr3, spare, pa, va, r)
  {
    MapPageAddsOne(m, cr3, spare, pa, va, flags);
    MapPageTables(m, cr3, spare, pa, va, flags);
    hide MapPage, TableOf, Translate, PageOf, FrameOf, WellFormed;
  }

  lemma MapPageTables(m: seq<PageFrame>, cr3: nat, spare: nat, pa: Word, va: Word, flags: nat)
    requires WellFormed(m, cr3) && spare < FRAMES && NoTable(m, cr3, spare)
    requires PageOf(va) < WINDOW * ENTRIES && MapPage(m, cr3, spare, pa, va, flags).0 == 0
    ensures var m' := MapPage(m, cr3, spare, pa, va, flags).1;
      Ram(m', cr3) && forall i: nat :: i < WINDOW ==>
        TableOf(m', cr3, i) ==
        if i == PageOf(va) / ENTRIES && NeedsTable(m, cr3, va) then Some(spare) else TableOf(m, cr3, i)
  {
    var pd, pt := PageOf(va) / ENTRIES, PageOf(va) % ENTRIES;
    WithTableKeeps(m, cr3, pd, spare);
    TableWriteKeeps(WithTable(m, cr3, pd, spare), cr3, pd, pt, Entry(pa, flags));
    hide TableOf, Poke, WithTable, Entry, PageOf;
  }

  // One step of growth: a free frame becomes the backing of a page that was
  // not mapped, and another one its table if there was none. Every frame still
  // has at most one role, and the frames with a role are in use.
  lemma GrowKeepsOwnership(m: seq<PageFrame>, cr3: nat, first: nat, last: nat, free: set<nat>,
                           pa: Word, spare: nat, va: Word, flags: nat)
    requires Ownership(m, cr3, first, last, free)
    requires pa % PAGE_SIZE == 0 && FrameOf(pa) in free
    requires spare < FRAMES && NoTable(m, cr3, spare)
    requires NeedsTable(m, cr3, va) ==> spare in free && spare != FrameOf(pa)
    requires va % PAGE_SIZE == 0 && first <= PageOf(va) <= last && PageOf(va) < WINDOW * ENTRIES
    requires Translate(m, cr3, PageOf(va)) == None
    ensures var (e, m') := MapPage(m, cr3, spare, pa, va, flags);
      e == 0 && Ownership(m', cr3, first, last, free - {FrameOf(pa)} - Taken(m, cr3, va, spare))
  {
    OwnedTables(m, cr3, first, last, free);
    MapPageAddsOne(m, cr3, spare, pa, va, flags);
    MapPageRoles(m, cr3, spare, pa, va, flags);
    var m' := MapPage(m, cr3, spare, pa, va, flags).1;
    hide MapPage, TableOf, Translate, PageOf, FrameOf, WellFormed, NoTable, FrameOfRole, InRange;
    assert OneRole(m', cr3, first, last);
    assert InUse(m', cr3, first, last, free - {FrameOf(pa)} - Taken(m, cr3, va, spare));
  }
}
