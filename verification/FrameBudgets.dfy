// How many frames it takes to map a range of pages: one for every page and
// every page table that is missing.
module FrameBudgets {
  import opened Words
  import opened PageTables
  import opened FrameRoles
  import opened PageEntries

  // The pages first..last and the tables that they need.
  ghost function RangeRoles(first: int, last: int): set<Role> {
    (set p: nat | first <= p <= last :: Backing(p)) + (set t: nat | first / ENTRIES <= t <= last / ENTRIES :: Table(t))
  }

  ghost function Missing(m: seq<PageFrame>, cr3: nat, first: int, last: int): set<Role>
    requires Ram(m, cr3)
  {
    set r | r in RangeRoles(first, last) && FrameOfRole(m, cr3, r) == None
  }

  // The size of a set of roles, kept apart from which roles they are.
  ghost function Cost(s: set<Role>): nat {
    |s|
  }

  // The frames that mapping the page of va takes, if it is not mapped.
  function NewFrames(m: seq<PageFrame>, cr3: nat, va: Word): nat
    requires Ram(m, cr3)
  {
    if NeedsTable(m, cr3, va) then 2 else 1
  }

  // Mapping a page fills its two roles, and no other.
  ghost predicate Filled(m: seq<PageFrame>, m': seq<PageFrame>, cr3: nat, page: nat)
    requires Ram(m, cr3) && Ram(m', cr3)
  {
    forall r: Role :: FrameOfRole(m', cr3, r) == None <==>
      FrameOfRole(m, cr3, r) == None && r != Backing(page) && r != Table(page / ENTRIES)
  }

  // No frame changes its role, and no page its entry.
  ghost predicate SameRoles(m: seq<PageFrame>, m': seq<PageFrame>, cr3: nat)
    requires Ram(m, cr3) && Ram(m', cr3)
  {
    (forall r: Role :: FrameOfRole(m', cr3, r) == FrameOfRole(m, cr3, r)) && SameEntries(m, m', cr3)
  }

  lemma SameMissing(m: seq<PageFrame>, m': seq<PageFrame>, cr3: nat, first: int, last: int)
    requires Ram(m, cr3) && Ram(m', cr3) && SameRoles(m, m', cr3)
    ensures Missing(m', cr3, first, last) == Missing(m, cr3, first, last)
  {
  }

  lemma MapPageFills(m: seq<PageFrame>, cr3: nat, spare: nat, pa: Word, va: Word, flags: nat)
    requires WellFormed(m, cr3) && spare < FRAMES && NoTable(m, cr3, spare)
    requires PageOf(va) < WINDOW * ENTRIES && MapPage(m, cr3, spare, pa, va, flags).0 == 0
    ensures var m' := MapPage(m, cr3, spare, pa, va, flags).1;
      Ram(m', cr3) && Filled(m, m', cr3, PageOf(va))
  {
    hide MapPage, Translate, PageOf, FrameOf, DistinctTables, NoTable;
    MapPageRoles(m, cr3, spare, pa, va, flags);
    TableRole(m, cr3, va);
  }

  lemma TableRole(m: seq<PageFrame>, cr3: nat, va: Word)
    requires Ram(m, cr3) && PageOf(va) < WINDOW * ENTRIES
    ensures FrameOfRole(m, cr3, Table(PageOf(va) / ENTRIES)) == None <==> NeedsTable(m, cr3, va)
    ensures FrameOfRole(m, cr3, Backing(PageOf(va))) == Translate(m, cr3, PageOf(va))
  {
  }

  // What a page that is not mapped lacks.
  ghost function Lack(m: seq<PageFrame>, cr3: nat, va: Word): set<Role>
    requires Ram(m, cr3)
  {
    {Backing(PageOf(va))} + if NeedsTable(m, cr3, va) then {Table(PageOf(va) / ENTRIES)} else {}
  }

  lemma LackCost(m: seq<PageFrame>, cr3: nat, va: Word)
    requires Ram(m, cr3)
    ensures Cost(Lack(m, cr3, va)) == NewFrames(m, cr3, va)
  {
    hide PageOf, NeedsTable;
    var p, t := Backing(PageOf(va)), Table(PageOf(va) / ENTRIES);
    assert |{p} + {t}| == 2;
    assert {p} + {} == {p};
  }

  lemma LackIsMissing(m: seq<PageFrame>, cr3: nat, first: nat, last: nat, va: Word)
    requires Ram(m, cr3) && first <= PageOf(va) <= last && PageOf(va) < WINDOW * ENTRIES
    requires Translate(m, cr3, PageOf(va)) == None
    ensures Lack(m, cr3, va) <= Missing(m, cr3, first, last)
  {
    hide Translate, PageOf, FrameOfRole, NeedsTable, RangeRoles;
    TableRole(m, cr3, va);
    InRangeRoles(first, last, PageOf(va));
  }

  // A range lacks at least what each of its missing pages lacks.
  lemma MissingPage(m: seq<PageFrame>, cr3: nat, first: nat, last: nat, va: Word)
    requires Ram(m, cr3) && first <= PageOf(va) <= last && PageOf(va) < WINDOW * ENTRIES
    requires Translate(m, cr3, PageOf(va)) == None
    ensures Cost(Missing(m, cr3, first, last)) >= NewFrames(m, cr3, va)
  {
    hide Translate, PageOf, NewFrames, Lack, Missing, Cost;
    LackIsMissing(m, cr3, first, last, va);
    LackCost(m, cr3, va);
    SubsetCost(Lack(m, cr3, va), Missing(m, cr3, first, last));
  }

  lemma InRangeRoles(first: nat, last: nat, page: nat)
    requires first <= page <= last
    ensures Backing(page) in RangeRoles(first, last) && Table(page / ENTRIES) in RangeRoles(first, last)
  {
  }

  lemma {:induction false} SubsetCost(a: set<Role>, b: set<Role>)
    requires a <= b
    ensures Cost(a) <= Cost(b)
  {
    assert b == a + (b - a);
  }

  // Each frame spent makes one role less missing.
  lemma MissingAfter(m: seq<PageFrame>, m': seq<PageFrame>, cr3: nat, first: nat, last: nat, va: Word)
    requires Ram(m, cr3) && Ram(m', cr3) && first <= PageOf(va) <= last && PageOf(va) < WINDOW * ENTRIES
    requires Translate(m, cr3, PageOf(va)) == None && Filled(m, m', cr3, PageOf(va))
    ensures Cost(Missing(m', cr3, first, last)) == Cost(Missing(m, cr3, first, last)) - NewFrames(m, cr3, va)
  {
    hide Translate, PageOf, FrameOfRole, NeedsTable;
    TableRole(m, cr3, va);
    var p, t := Backing(PageOf(va)), Table(PageOf(va) / ENTRIES);
    InRangeRoles(first, last, PageOf(va));
    var miss, miss' := Missing(m, cr3, first, last), Missing(m', cr3, first, last);
    assert p in miss;
    assert t in miss <==> NeedsTable(m, cr3, va);
    assert miss' == miss - {p} - {t};
  }

  // A range whose pages are mapped lacks no table either.
  lemma NothingMissing(m: seq<PageFrame>, cr3: nat, first: nat, last: nat)
    requires Ram(m, cr3) && first <= last < WINDOW * ENTRIES
    requires forall p: nat :: first <= p <= last ==> FrameOfRole(m, cr3, Backing(p)) != None
    ensures Missing(m, cr3, first, last) == {}
  {
    forall t: nat | first / ENTRIES <= t <= last / ENTRIES
      ensures FrameOfRole(m, cr3, Table(t)) != None
    {
      var p := if t == first / ENTRIES then first else t * ENTRIES;
      assert first <= p <= last && p / ENTRIES == t;
      assert FrameOfRole(m, cr3, Backing(p)) != None;
    }
  }

  // A single page lacks no more than its own two roles.
  lemma MissingOfOne(m: seq<PageFrame>, cr3: nat, va: Word)
    requires Ram(m, cr3) && PageOf(va) < WINDOW * ENTRIES && Translate(m, cr3, PageOf(va)) == None
    ensures Missing(m, cr3, PageOf(va), PageOf(va)) == Lack(m, cr3, va)
  {
    hide Translate, PageOf, FrameOfRole, NeedsTable;
    TableRole(m, cr3, va);
    InRangeRoles(PageOf(va), PageOf(va), PageOf(va));
  }

  // Two single pages, mapped one after the other, take exactly what both
  // lacked before, even if they share a table.
  lemma BothPages(m: seq<PageFrame>, m': seq<PageFrame>, cr3: nat, a: Word, b: Word)
    requires Ram(m, cr3) && Ram(m', cr3) && PageOf(a) != PageOf(b)
    requires PageOf(a) < WINDOW * ENTRIES && PageOf(b) < WINDOW * ENTRIES
    requires Translate(m, cr3, PageOf(a)) == None && Translate(m, cr3, PageOf(b)) == None
    requires Filled(m, m', cr3, PageOf(a))
    ensures Cost(Missing(m, cr3, PageOf(a), PageOf(a)) + Missing(m, cr3, PageOf(b), PageOf(b)))
      == NewFrames(m, cr3, a) + NewFrames(m', cr3, b)
  {
    hide Translate, PageOf, NewFrames, Lack, Missing, Cost;
    MissingOfOne(m, cr3, a);
    MissingOfOne(m, cr3, b);
    LackCost(m, cr3, a);
    LackCost(m', cr3, b);
    LackSplits(m, m', cr3, a, b);
    ApartCost(Lack(m, cr3, a), Lack(m', cr3, b));
  }

  lemma LackSplits(m: seq<PageFrame>, m': seq<PageFrame>, cr3: nat, a: Word, b: Word)
    requires Ram(m, cr3) && Ram(m', cr3) && PageOf(a) != PageOf(b)
    requires PageOf(a) < WINDOW * ENTRIES && PageOf(b) < WINDOW * ENTRIES && Filled(m, m', cr3, PageOf(a))
    requires Translate(m, cr3, PageOf(a)) == None
    ensures Lack(m, cr3, a) + Lack(m, cr3, b) == Lack(m, cr3, a) + Lack(m', cr3, b)
    ensures Lack(m, cr3, a) !! Lack(m', cr3, b)
  {
    hide Translate, PageOf, FrameOfRole, NeedsTable;
    TableRole(m, cr3, a);
    TableRole(m, cr3, b);
    TableRole(m', cr3, b);
    assert FrameOfRole(m', cr3, Table(PageOf(a) / ENTRIES)) != None;
    assert FrameOfRole(m', cr3, Table(PageOf(b) / ENTRIES)) == None <==>
      FrameOfRole(m, cr3, Table(PageOf(b) / ENTRIES)) == None && PageOf(b) / ENTRIES != PageOf(a) / ENTRIES;
  }

  lemma ApartCost(a: set<Role>, b: set<Role>)
    requires a !! b
    ensures Cost(a + b) == Cost(a) + Cost(b)
  {
  }
}
