// The words that map_page stores, bit by bit, and which pages may be written to.
module PageEntries {
  import opened Words
  import opened PageTables

  // Bit k of w.
  function Bit(w: nat, k: nat): (b: nat)
    ensures b < 2
  {
    if k == 0 then w % 2 else Bit(w / 2, k - 1)
  }

  function Power(j: nat): nat {
    if j == 0 then 1 else 2 * Power(j - 1)
  }

  // Numbers that differ by a multiple of the j-th power of 2 have the same low
  // j bits.
  lemma {:induction false} SameLowBits(u: nat, v: nat, d: int, j: nat, k: nat)
    requires u - v == d * Power(j) && k < j
    ensures Bit(u, k) == Bit(v, k)
  {
    var e := d * Power(j - 1);
    assert u - v == 2 * e;
    Halves(u, v, e);
    if k > 0 {
      SameLowBits(u / 2, v / 2, d, j - 1, k - 1);
    }
  }

  lemma Halves(u: nat, v: nat, e: int)
    requires u - v == 2 * e
    ensures u % 2 == v % 2 && u / 2 - v / 2 == e
  {
    assert u == 2 * (u / 2) + u % 2 && v == 2 * (v / 2) + v % 2;
  }

  // The entry for frame address pa: its low bit says present, the next eleven
  // are those of the flags, and the rest is the address.
  ghost predicate StoredEntry(w: Word, pa: Word, flags: nat) {
    && w / 4096 * 4096 == pa
    && Bit(w, 0) == 1
    && forall k: nat :: 1 <= k < 12 ==> Bit(w, k) == Bit(flags, k)
  }

  lemma EntryBits(pa: Word, flags: nat)
    requires pa % PAGE_SIZE == 0
    ensures StoredEntry(Entry(pa, flags), pa, flags)
  {
    var w, f, x, h := Entry(pa, flags), pa / 4096, flags % 4096 / 2, flags / 4096;
    assert pa == f * 4096;
    EntryNames(pa, flags);
    assert w == 2 * (2048 * f + x) + 1;
    Halve(2048 * f + x, 1);
    LowPart(h, flags % 4096);
    assert flags == h * 4096 + flags % 4096;
    forall k: nat | 1 <= k < 12
      ensures Bit(w, k) == Bit(flags, k)
    {
      assert w / 2 - flags / 2 == (f - h) * 2048;
      assert Power(11) == 2048;
      SameLowBits(w / 2, flags / 2, f - h, 11, k - 1);
    }
  }

  lemma Halve(y: nat, b: nat)
    requires b < 2
    ensures (2 * y + b) / 2 == y && (2 * y + b) % 2 == b
  {
  }

  lemma LowPart(h: int, l: int)
    requires 0 <= l < 4096
    ensures (h * 4096 + l) / 2 == h * 2048 + l / 2
  {
    assert h * 4096 + l == 2 * (h * 2048 + l / 2) + l % 2;
  }

  // The error code of map_page.
  function MapError(m: seq<PageFrame>, cr3: nat, pa: Word, va: Word): int
    requires Ram(m, cr3)
  {
    if pa % 4096 != 0 then 3
    else if va % 4096 != 0 then 4
    else
      var dir := m[cr3][va / 0x40_0000];
      if dir % 2 == 1 && m[dir / 4096][va / 0x1000 % 0x400] % 2 == 1 then 5 else 0
  }

  // All words of memory after map_page has mapped va to pa: the entry, the
  // directory entry and the zeroed table if there was none, and else no change.
  ghost predicate PageStored(m: seq<PageFrame>, m': seq<PageFrame>, cr3: nat, spare: nat, pa: Word, va: Word, flags: nat)
    requires Ram(m, cr3) && Ram(m', cr3)
  {
    var pd, pt := va / 0x40_0000, va / 0x1000 % 0x400;
    var old_, dir := m[cr3][pd], m'[cr3][pd];
    && dir == (if old_ % 2 == 1 then old_ else spare * 4096 + 3)
    && StoredEntry(m'[dir / 4096][pt], pa, flags)
    && forall f: nat, i: nat :: f < 0x10_0000 && i < 0x400 && !(f == dir / 4096 && i == pt) && !(f == cr3 && i == pd) ==>
         m'[f][i] == if old_ % 2 == 0 && f == spare then 0 else m[f][i]
  }

  // The table entry of a page, if it is mapped.
  function EntryOf(m: seq<PageFrame>, cr3: nat, page: nat): Option<Word>
    requires Ram(m, cr3) && page < FRAMES
  {
    if Translate(m, cr3, page).None? then None
    else Some(m[TableOf(m, cr3, page / ENTRIES).value][page % ENTRIES])
  }

  // The entry carries the flags.
  ghost predicate Flagged(w: Word, flags: nat) {
    forall k: nat :: 1 <= k < 12 ==> Bit(w, k) == Bit(flags, k)
  }

  // All pages below the window that were mapped keep their entries, and all
  // that are mapped in addition carry these flags.
  ghost predicate NewFlags(m: seq<PageFrame>, m': seq<PageFrame>, cr3: nat, flags: nat)
    requires Ram(m, cr3) && Ram(m', cr3)
  {
    forall p: nat :: p < WINDOW * ENTRIES ==>
      if EntryOf(m, cr3, p).Some? then EntryOf(m', cr3, p) == EntryOf(m, cr3, p)
      else EntryOf(m', cr3, p).Some? ==> Flagged(EntryOf(m', cr3, p).value, flags)
  }

  ghost predicate SameEntries(m: seq<PageFrame>, m': seq<PageFrame>, cr3: nat)
    requires Ram(m, cr3) && Ram(m', cr3)
  {
    forall p: nat :: p < WINDOW * ENTRIES ==> EntryOf(m', cr3, p) == EntryOf(m, cr3, p)
  }

  lemma SameHasNewFlags(m: seq<PageFrame>, m': seq<PageFrame>, cr3: nat, flags: nat)
    requires Ram(m, cr3) && Ram(m', cr3) && SameEntries(m, m', cr3)
    ensures NewFlags(m, m', cr3, flags)
  {
    hide EntryOf;
  }

  lemma NewFlagsTwice(m: seq<PageFrame>, m1: seq<PageFrame>, m2: seq<PageFrame>, cr3: nat, flags: nat)
    requires Ram(m, cr3) && Ram(m1, cr3) && Ram(m2, cr3)
    requires NewFlags(m, m1, cr3, flags) && NewFlags(m1, m2, cr3, flags)
    ensures NewFlags(m, m2, cr3, flags)
  {
    hide EntryOf, Flagged;
  }

  // What map_page returns and leaves in memory, for an address outside the window.
  lemma MapPageStores(m: seq<PageFrame>, cr3: nat, spare: nat, pa: Word, va: Word, flags: nat)
    requires WellFormed(m, cr3) && spare < FRAMES && spare != cr3 && va < 0xFFC0_0000
    requires TableOf(m, cr3, PageOf(va) / ENTRIES) == None ==> NoTable(m, cr3, spare)
    ensures var (e, m') := MapPage(m, cr3, spare, pa, va, flags);
      && Ram(m', cr3)
      && e == MapError(m, cr3, pa, va)
      && (e != 0 ==> m' == m)
      && (e == 0 ==> PageStored(m, m', cr3, spare, pa, va, flags))
  {
    Indices(va);
    var pd, pt := PageOf(va) / ENTRIES, PageOf(va) % ENTRIES;
    if pa % PAGE_SIZE == 0 && va % PAGE_SIZE == 0 {
      TableEntry(spare);
      EntryBits(pa, flags);
      assert TableOf(m, cr3, pd) != Some(cr3);
      hide Entry, StoredEntry, PageOf, NoTable, DistinctTables;
    }
  }

  lemma MapPageFails(m: seq<PageFrame>, cr3: nat, spare: nat, pa: Word, va: Word, flags: nat)
    requires Ram(m, cr3) && spare < FRAMES && spare != cr3 && (pa % 4096 != 0 || va % 4096 != 0)
    ensures MapPage(m, cr3, spare, pa, va, flags) == (MapError(m, cr3, pa, va), m)
    ensures MapError(m, cr3, pa, va) != 0
  {
  }

  lemma Indices(va: Word)
    ensures PageOf(va) / ENTRIES == va / 0x40_0000 && PageOf(va) % ENTRIES == va / 0x1000 % 0x400
    ensures va < 0xFFC0_0000 ==> va / 0x40_0000 < WINDOW
  {
  }

  // ---------- Writing ----------

  // With CR0.WP set, a store goes through only if both entries allow it.
  predicate Writable(m: seq<PageFrame>, cr3: nat, page: nat)
    requires Ram(m, cr3) && page < FRAMES
  {
    && Translate(m, cr3, page).Some?
    && Bit(Pde(m, cr3, page / ENTRIES), 1) == 1
    && Bit(m[TableOf(m, cr3, page / ENTRIES).value][page % ENTRIES], 1) == 1
  }

  // Every directory entry in use allows writing, as booting leaves them.
  ghost predicate WritableTables(m: seq<PageFrame>, cr3: nat)
    requires Ram(m, cr3)
  {
    forall i: nat :: i < ENTRIES && TableOf(m, cr3, i).Some? ==> Bit(Pde(m, cr3, i), 1) == 1
  }

  // Then the window can be written to.
  lemma WritableWindow(m: seq<PageFrame>, cr3: nat, pd: nat, pt: nat)
    requires SelfMapped(m, cr3) && WritableTables(m, cr3) && pd < ENTRIES && pt < ENTRIES
    ensures Writable(m, cr3, PageOf(PdeAddress(pd)))
    ensures TableOf(m, cr3, pd).Some? ==> Writable(m, cr3, PageOf(PteAddress(pd, pt)))
  {
    assert PageOf(PdeAddress(pd)) == 0xF_FFFF == WINDOW * ENTRIES + WINDOW;
    assert PteAddress(pd, pt) == (0xF_FC00 + pd) * PAGE_SIZE + 4 * pt;
    assert PageOf(PteAddress(pd, pt)) == 0xF_FC00 + pd == WINDOW * ENTRIES + pd;
  }

  lemma SameDirectory(m: seq<PageFrame>, m': seq<PageFrame>, cr3: nat)
    requires Ram(m, cr3) && Ram(m', cr3) && m'[cr3] == m[cr3] && WritableTables(m, cr3)
    ensures WritableTables(m', cr3)
  {
    assert forall i: nat :: i < ENTRIES ==> TableOf(m', cr3, i) == TableOf(m, cr3, i);
  }

  lemma NewEntryWritable(m: seq<PageFrame>, cr3: nat, pd: nat, f: nat)
    requires Ram(m, cr3) && WritableTables(m, cr3) && pd < ENTRIES && f < FRAMES
    ensures WritableTables(Poke(m, cr3, pd, f * PAGE_SIZE + 3), cr3)
  {
    hide Bit;
    var m' := Poke(m, cr3, pd, f * PAGE_SIZE + 3);
    TableBits(f);
    forall i: nat | i < ENTRIES && TableOf(m', cr3, i).Some?
      ensures Bit(Pde(m', cr3, i), 1) == 1
    {
      if i != pd {
        assert m'[cr3][i] == m[cr3][i] && TableOf(m, cr3, i).Some?;
      }
    }
  }

  lemma TableBits(f: nat)
    ensures Bit(f * PAGE_SIZE + 3, 1) == 1
  {
    Halve(2048 * f + 1, 1);
    Halve(1024 * f, 1);
  }

  // Mapping a page allows writing to it exactly if the flags do, and changes
  // that of no other page below the window.
  lemma MapPageWritable(m: seq<PageFrame>, m': seq<PageFrame>, cr3: nat, spare: nat, pa: Word, va: Word, flags: nat)
    requires WellFormed(m, cr3) && WritableTables(m, cr3) && spare < FRAMES && va < 0xFFC0_0000
    requires TableOf(m, cr3, PageOf(va) / ENTRIES) == None ==> NoTable(m, cr3, spare)
    requires Ram(m', cr3) && PageStored(m, m', cr3, spare, pa, va, flags)
    ensures WritableTables(m', cr3)
    ensures Writable(m', cr3, PageOf(va)) <==> Bit(flags, 1) == 1
    ensures forall p: nat :: p < WINDOW * ENTRIES && p != PageOf(va) ==> Writable(m', cr3, p) == Writable(m, cr3, p)
    ensures Translate(m, cr3, PageOf(va)) == None ==> NewFlags(m, m', cr3, flags)
  {
    Indices(va);
    var pd, pt := PageOf(va) / ENTRIES, PageOf(va) % ENTRIES;
    TableEntry(spare);
    TableBits(spare);
    StoredTables(m, m', cr3, spare, pa, va, flags);
    NewEntry(m, m', cr3, spare, pa, va, flags);
    forall p: nat | p < WINDOW * ENTRIES && p != PageOf(va)
      ensures Writable(m', cr3, p) == Writable(m, cr3, p) && EntryOf(m', cr3, p) == EntryOf(m, cr3, p)
    {
      OtherEntry(m, m', cr3, spare, pa, va, flags, p);
    }
    hide Bit, NoTable, WellFormed, PageOf;
  }

  lemma NewEntry(m: seq<PageFrame>, m': seq<PageFrame>, cr3: nat, spare: nat, pa: Word, va: Word, flags: nat)
    requires Ram(m, cr3) && WritableTables(m, cr3) && spare < FRAMES && va < 0xFFC0_0000
    requires Ram(m', cr3) && PageStored(m, m', cr3, spare, pa, va, flags)
    ensures Bit(Pde(m', cr3, PageOf(va) / ENTRIES), 1) == 1
    ensures Writable(m', cr3, PageOf(va)) <==> Bit(flags, 1) == 1
    ensures EntryOf(m', cr3, PageOf(va)).Some? && Flagged(EntryOf(m', cr3, PageOf(va)).value, flags)
  {
    Indices(va);
    TableEntry(spare);
    TableBits(spare);
    var pd, pt := PageOf(va) / ENTRIES, PageOf(va) % ENTRIES;
    assert TableOf(m, cr3, pd).Some? ==> Bit(Pde(m, cr3, pd), 1) == 1;
    var w := m'[TableOf(m', cr3, pd).value][pt];
    assert Bit(w, 0) == w % 2 && Bit(w, 1) == Bit(flags, 1);
  }

  lemma StoredTables(m: seq<PageFrame>, m': seq<PageFrame>, cr3: nat, spare: nat, pa: Word, va: Word, flags: nat)
    requires WellFormed(m, cr3) && spare < FRAMES && va < 0xFFC0_0000
    requires TableOf(m, cr3, PageOf(va) / ENTRIES) == None ==> spare != cr3
    requires Ram(m', cr3) && PageStored(m, m', cr3, spare, pa, va, flags)
    ensures var pd := PageOf(va) / ENTRIES;
      && TableOf(m', cr3, pd) == (if TableOf(m, cr3, pd).Some? then TableOf(m, cr3, pd) else Some(spare))
      && (forall i: nat :: i < ENTRIES && i != pd ==> Pde(m', cr3, i) == Pde(m, cr3, i))
  {
    hide Bit, StoredEntry;
    Indices(va);
    var pd := PageOf(va) / ENTRIES;
    TableEntry(spare);
    assert TableOf(m, cr3, pd) != Some(cr3);
  }

  lemma OtherEntry(m: seq<PageFrame>, m': seq<PageFrame>, cr3: nat, spare: nat, pa: Word, va: Word, flags: nat, p: nat)
    requires WellFormed(m, cr3) && spare < FRAMES && va < 0xFFC0_0000
    requires TableOf(m, cr3, PageOf(va) / ENTRIES) == None ==> NoTable(m, cr3, spare)
    requires Ram(m', cr3) && PageStored(m, m', cr3, spare, pa, va, flags)
    requires p < WINDOW * ENTRIES && p != PageOf(va)
    ensures Writable(m', cr3, p) == Writable(m, cr3, p) && EntryOf(m', cr3, p) == EntryOf(m, cr3, p)
  {
    hide Bit, StoredEntry;
    Indices(va);
    StoredTables(m, m', cr3, spare, pa, va, flags);
    var pd, pt := PageOf(va) / ENTRIES, PageOf(va) % ENTRIES;
    var d, t := p / ENTRIES, p % ENTRIES;
    assert d != pd || t != pt;
    TableEntry(spare);
    if TableOf(m, cr3, d).Some? {
      assert TableOf(m, cr3, d) != TableOf(m, cr3, pd) || d == pd;
      assert TableOf(m, cr3, d) != Some(cr3);
    }
  }

  // A store to a frame that is neither directory nor table changes no entry.
  lemma StoreKeepsWritable(m: seq<PageFrame>, m': seq<PageFrame>, cr3: nat, f: nat)
    requires Ram(m, cr3) && Ram(m', cr3) && f != cr3
    requires forall g :: 0 <= g < FRAMES && g != f ==> m'[g] == m[g]
    requires forall t: nat :: t < WINDOW ==> TableOf(m, cr3, t) != Some(f)
    ensures WritableTables(m, cr3) ==> WritableTables(m', cr3)
    ensures forall p: nat :: p < WINDOW * ENTRIES ==> Writable(m', cr3, p) == Writable(m, cr3, p)
    ensures SameEntries(m, m', cr3)
  {
    hide Bit;
    assert forall t: nat :: t < ENTRIES ==> TableOf(m', cr3, t) == TableOf(m, cr3, t);
  }
}
