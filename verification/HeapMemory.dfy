// The words of the heap: area headers packed into two words each, and how the
// list of areas is laid out in memory.
module HeaderWords {
  import opened Words

  // The accessors of struct heap_area, on the word that holds the field.
  function Address(w: Word): Word {
    w - w % 8
  }

  predicate UsedBit(w: Word) {
    w % 2 == 1
  }

  predicate EpsilonBit(w: Word) {
    w / 2 % 2 == 1
  }

  // set_next_address and set_prev_address
  function WithAddress(w: Word, address: Word): Word {
    Address(address) + w % 8
  }

  // set_area_used
  function WithUsed(w: Word, used: bool): Word {
    w - w % 2 + if used then 1 else 0
  }

  // set_area_epsilon
  function WithEpsilon(w: Word, ep: bool): Word {
    w - w / 2 % 2 * 2 + if ep then 2 else 0
  }

  // A word is its address part and three flag bits.
  lemma Fields(q: int, b0: int, b1: int, b2: int)
    requires 0 <= b0 <= 1 && 0 <= b1 <= 1 && 0 <= b2 <= 1
    ensures var w := 8 * q + 4 * b2 + 2 * b1 + b0;
      w % 8 == 4 * b2 + 2 * b1 + b0 && w % 2 == b0 && w / 2 % 2 == b1
  {
    Low3(q, 4 * b2 + 2 * b1 + b0);
    Low1(4 * q + 2 * b2 + b1, b0);
    Low1(2 * q + b2, b1);
    assert 8 * q + 4 * b2 + 2 * b1 + b0 == 2 * (4 * q + 2 * b2 + b1) + b0;
    assert 4 * q + 2 * b2 + b1 == 2 * (2 * q + b2) + b1;
  }

  lemma Low3(q: int, r: int)
    requires 0 <= r < 8
    ensures (8 * q + r) % 8 == r
  {
  }

  lemma Low1(q: int, b: int)
    requires 0 <= b <= 1
    ensures (2 * q + b) % 2 == b && (2 * q + b) / 2 == q
  {
  }

  lemma Split(w: Word) returns (q: int, b0: int, b1: int, b2: int)
    ensures 0 <= b0 <= 1 && 0 <= b1 <= 1 && 0 <= b2 <= 1
    ensures w == 8 * q + 4 * b2 + 2 * b1 + b0
  {
    q := w / 8;
    var r := w % 8;
    b2 := r / 4;
    b1 := r % 4 / 2;
    b0 := r % 2;
  }

  // Each setter sets its own field and keeps the other two.
  lemma SettersAreIndependent(w: Word, address: Word, flag: bool)
    ensures var n := WithAddress(w, address);
      Address(n) == Address(address) && UsedBit(n) == UsedBit(w) && EpsilonBit(n) == EpsilonBit(w)
    ensures var u := WithUsed(w, flag);
      Address(u) == Address(w) && UsedBit(u) == flag && EpsilonBit(u) == EpsilonBit(w)
    ensures var e := WithEpsilon(w, flag);
      Address(e) == Address(w) && UsedBit(e) == UsedBit(w) && EpsilonBit(e) == flag
  {
    var q, b0, b1, b2 := Split(w);
    var f := if flag then 1 else 0;
    var p := address / 8;
    Fields(q, b0, b1, b2);
    Fields(p, b0, b1, b2);
    Fields(q, f, b1, b2);
    Fields(q, b0, f, b2);
    assert Address(address) == 8 * p;
    assert WithAddress(w, address) == 8 * p + 4 * b2 + 2 * b1 + b0;
    assert WithUsed(w, flag) == 8 * q + 4 * b2 + 2 * b1 + f;
    assert WithEpsilon(w, flag) == 8 * q + 4 * b2 + 2 * f + b0;
  }

  // The same in bits: used is bit 0 of next, epsilon is bit 1, and the address is
  // all but the low three bits.
  lemma HeaderBits(w: Word, address: Word, flag: bool)
    ensures UsedBit(w) <==> w % 2 == 1
    ensures EpsilonBit(w) <==> w / 2 % 2 == 1
    ensures Address(w) == w / 8 * 8
    ensures WithAddress(w, address) == address / 8 * 8 + w % 8
    ensures WithUsed(w, flag) == w / 2 * 2 + if flag then 1 else 0
    ensures WithEpsilon(w, flag) == w / 4 * 4 + (if flag then 2 else 0) + w % 2
  {
    var q, b0, b1, b2 := Split(w);
    Fields(q, b0, b1, b2);
    assert w == 4 * (2 * q + b2) + (2 * b1 + b0);
    LowQuarter(2 * q + b2, 2 * b1 + b0);
  }

  lemma LowQuarter(q: int, r: int)
    requires 0 <= r < 4
    ensures (4 * q + r) / 4 == q
  {
  }

  // Byte k of a little-endian word, and the word with that byte replaced.
  function ByteOf(w: Word, k: nat): (b: int)
    requires k < 4
    ensures 0 <= b < 256
  {
    if k == 0 then w % 256
    else if k == 1 then w / 256 % 256
    else if k == 2 then w / 256 / 256 % 256
    else w / 256 / 256 / 256
  }

  function Unit(k: nat): int
    requires k < 4
  {
    if k == 0 then 1 else if k == 1 then 0x100 else if k == 2 then 0x1_0000 else 0x100_0000
  }

  function WithByte(w: Word, k: nat, b: int): (w': Word)
    requires k < 4 && 0 <= b < 256
  {
    BytesJoin(w);
    w + (b - ByteOf(w, k)) * Unit(k)
  }

  lemma BytesJoin(w: Word)
    ensures w == ByteOf(w, 0) + 0x100 * ByteOf(w, 1) + 0x1_0000 * ByteOf(w, 2) + 0x100_0000 * ByteOf(w, 3)
  {
    var q := w / 256;
    var r := q / 256;
    assert w == 256 * q + w % 256 && q == 256 * r + q % 256 && r == 256 * (r / 256) + r % 256;
  }

  lemma BytesSplit(b0: int, b1: int, b2: int, b3: int)
    requires 0 <= b0 < 256 && 0 <= b1 < 256 && 0 <= b2 < 256 && 0 <= b3 < 256
    ensures var w := b0 + 0x100 * b1 + 0x1_0000 * b2 + 0x100_0000 * b3;
      && w < 0x1_0000_0000
      && ByteOf(w, 0) == b0 && ByteOf(w, 1) == b1 && ByteOf(w, 2) == b2 && ByteOf(w, 3) == b3
  {
    var r := b2 + 0x100 * b3;
    var q := b1 + 0x100 * r;
    var w := b0 + 0x100 * q;
    assert w / 256 == q && w % 256 == b0;
    assert q / 256 == r && q % 256 == b1;
    assert r / 256 == b3 && r % 256 == b2;
  }

  // A byte store changes that byte of the word only.
  lemma WithByteBytes(w: Word, k: nat, b: int, l: nat)
    requires k < 4 && l < 4 && 0 <= b < 256
    ensures ByteOf(WithByte(w, k, b), l) == if l == k then b else ByteOf(w, l)
  {
    var b0, b1, b2, b3 := ByteOf(w, 0), ByteOf(w, 1), ByteOf(w, 2), ByteOf(w, 3);
    BytesJoin(w);
    BytesSplit(if k == 0 then b else b0, if k == 1 then b else b1, if k == 2 then b else b2, if k == 3 then b else b3);
  }
}

// How a list of areas lies in memory. A memory maps the addresses of mapped
// words to their contents.
module HeapLayout {
  import opened Words
  import opened HeaderWords
  import opened Areas
  import opened AreaTheorems

  type Memory = map<int, Word>

  ghost predicate HeaderAt(m: Memory, s: seq<Area>, i: nat)
    requires i < |s|
  {
    var a := s[i].addr;
    && a in m && a + 4 in m
    && Address(m[a]) == (if i + 1 < |s| then s[i + 1].addr else 0)
    && UsedBit(m[a]) == s[i].used
    && EpsilonBit(m[a]) == (i + 1 == |s|)
    && Address(m[a + 4]) == s[i].prev
  }

  // The memory encodes the list: header by header, flags included.
  ghost predicate Holds(m: Memory, s: seq<Area>) {
    forall i: nat :: i < |s| ==> HeaderAt(m, s, i)
  }

  // Every page from the first header to the last one but the sentinel is mapped.
  ghost predicate Backed(m: Memory, s: seq<Area>, lo: int)
    requires |s| >= 2
  {
    forall a :: lo <= a < s[|s| - 2].addr + HEADER && a % 4 == 0 ==> a in m
  }

  // The list tiles lo..hi, and the memory holds it on mapped pages.
  ghost predicate Laid(m: Memory, s: seq<Area>, lo: int, hi: int) {
    Tiled(s, lo, hi) && Holds(m, s) && Backed(m, s, lo)
  }

  ghost predicate SameExcept(m: Memory, m': Memory, touched: set<int>) {
    m'.Keys == m.Keys && forall a :: a in m && a !in touched ==> m'[a] == m[a]
  }

  ghost predicate Extends(m: Memory, m': Memory) {
    forall a :: a in m ==> a in m' && m'[a] == m[a]
  }

  // The words of a block are still there and unchanged.
  ghost predicate SameBlock(m: Memory, m': Memory, x: (int, int)) {
    forall a :: x.0 <= a < x.0 + x.1 && a in m ==> a in m' && m'[a] == m[a]
  }

  // Header words of different headers are different words.
  lemma HeadersApart(s: seq<Area>, i: nat, j: nat)
    requires Ascending(s) && i < |s| && j < |s| && i != j
    ensures s[i].addr + HEADER <= s[j].addr || s[j].addr + HEADER <= s[i].addr
  {
    assert i < j || j < i;
  }

  // set_area_used
  lemma MarkHolds(m: Memory, s: seq<Area>, k: nat, used: bool, m': Memory)
    requires Holds(m, s) && Ascending(s) && k < |s|
    requires s[k].addr in m && m' == m[s[k].addr := WithUsed(m[s[k].addr], used)]
    ensures Holds(m', s[k := s[k].(used := used)])
  {
    var t := s[k := s[k].(used := used)];
    forall i: nat | i < |t|
      ensures HeaderAt(m', t, i)
    {
      assert HeaderAt(m, s, i);
      if i == k {
        SettersAreIndependent(m[s[k].addr], 0, used);
      } else {
        HeadersApart(s, i, k);
      }
    }
  }

  // A new header at `at` in area k, the links of its neighbours set.
  lemma InsertHolds(m: Memory, s: seq<Area>, k: nat, at: int, link: bool, m': Memory)
    requires Holds(m, s) && Ascending(s) && k < |s| - 1 && !s[k].used
    requires s[k].addr + HEADER <= at <= s[k + 1].addr - HEADER
    requires 0 <= at && at % 8 == 0 && 0 <= s[k].addr && 0 <= s[k + 1].addr < 0x1_0000_0000
    requires s[k + 1].addr % 8 == 0 && s[k].addr % 8 == 0
    requires at in m && at + 4 in m
    requires m'.Keys == m.Keys
    requires SameExcept(m, m', {at, at + 4, s[k].addr} + if link then {s[k + 1].addr + 4} else {})
    requires HeaderAt(m, s, k) && HeaderAt(m, s, k + 1)
    requires m'[at] == WithAddress(0, s[k + 1].addr) && Address(m'[at + 4]) == s[k].addr
    requires m'[s[k].addr] == WithAddress(m[s[k].addr], at)
    requires link ==> Address(m'[s[k + 1].addr + 4]) == at
    ensures Holds(m', Insert(link, s, k, at))
  {
    hide Insert, Address, UsedBit, EpsilonBit, WithAddress;
    var t := Insert(link, s, k, at);
    InsertAt(link, s, k, at);
    SetLink(0, s[k + 1].addr);
    SetLink(m[s[k].addr], at);
    NoFlags();
    assert HeaderAt(m', t, k + 1);
    assert s[k].addr + 4 !in {at, at + 4, s[k].addr, s[k + 1].addr + 4};
    assert HeaderAt(m', t, k);
    forall i: nat | i < |t| && i != k && i != k + 1
      ensures HeaderAt(m', t, i)
    {
      KeptByInsert(m, s, k, at, link, m', if i < k then i else i - 1);
    }
  }

  // The setters on an 8-aligned address.
  lemma SetLink(w: Word, address: Word)
    requires address % 8 == 0
    ensures var n := WithAddress(w, address);
      Address(n) == address && UsedBit(n) == UsedBit(w) && EpsilonBit(n) == EpsilonBit(w)
  {
    SettersAreIndependent(w, address, false);
  }

  lemma NoFlags()
    ensures Address(0) == 0 && !UsedBit(0) && !EpsilonBit(0)
  {
  }

  lemma KeptByInsert(m: Memory, s: seq<Area>, k: nat, at: int, link: bool, m': Memory, j: nat)
    requires Holds(m, s) && Ascending(s) && k < |s| - 1 && j < |s| && j != k
    requires s[k].addr + HEADER <= at <= s[k + 1].addr - HEADER
    requires m'.Keys == m.Keys && s[k + 1].addr + 4 in m
    requires SameExcept(m, m', {at, at + 4, s[k].addr} + if link then {s[k + 1].addr + 4} else {})
    requires link ==> Address(m'[s[k + 1].addr + 4]) == at
    ensures HeaderAt(m', s[k + 1 := if link then s[k + 1].(prev := at) else s[k + 1]], j)
  {
    assert HeaderAt(m, s, j);
    HeadersApart(s, j, k);
    HeadersApart(s, k, k + 1);
    if j != k + 1 {
      HeadersApart(s, j, k + 1);
    }
  }

  // Header j linked directly to header i. The header d in between may have
  // been written to as well; it is no longer part of the list.
  lemma SpliceHolds(m: Memory, s: seq<Area>, j: nat, i: nat, prev: int, d: nat, m': Memory)
    requires Holds(m, s) && Ascending(s) && j < d <= i < |s|
    requires s[j].addr in m && 0 <= s[i].addr < 0x1_0000_0000 && s[i].addr % 8 == 0
    requires s[i].addr + 4 in m && m'.Keys == m.Keys
    requires SameExcept(m, m', {s[j].addr, s[i].addr + 4, s[d].addr + 4})
    requires m'[s[j].addr] == WithAddress(m[s[j].addr], s[i].addr)
    requires Address(m'[s[i].addr + 4]) == prev
    ensures Holds(m', Splice(s, j, i, prev))
  {
    hide Splice, Address, UsedBit, EpsilonBit, WithAddress;
    var t := Splice(s, j, i, prev);
    SpliceAt(s, j, i, prev);
    forall a: nat | a < |t|
      ensures HeaderAt(m', t, a)
    {
      if a == j {
        assert HeaderAt(m, s, j);
        SetLink(m[s[j].addr], s[i].addr);
        HeadersApart(s, j, i);
        HeadersApart(s, j, d);
      } else {
        KeptBySplice(m, s, j, i, prev, d, m', if a < j then a else a + (i - j) - 1);
      }
    }
  }

  lemma KeptBySplice(m: Memory, s: seq<Area>, j: nat, i: nat, prev: int, d: nat, m': Memory, k: nat)
    requires Holds(m, s) && Ascending(s) && j < d <= i < |s|
    requires s[i].addr + 4 in m && m'.Keys == m.Keys
    requires SameExcept(m, m', {s[j].addr, s[i].addr + 4, s[d].addr + 4})
    requires Address(m'[s[i].addr + 4]) == prev
    requires k < j || i <= k < |s|
    ensures HeaderAt(m', s[i := s[i].(prev := prev)], k)
  {
    assert HeaderAt(m, s, k);
    HeadersApart(s, k, j);
    if k != d {
      HeadersApart(s, k, d);
    }
    if k != i {
      HeadersApart(s, k, i);
    }
  }

  // a belongs to header i, or area i is free and a lies in it.
  predicate Spare(s: seq<Area>, i: nat, a: int)
    requires i < |s|
  {
    || s[i].addr <= a < s[i].addr + HEADER
    || (i + 1 < |s| && !s[i].used && s[i].addr <= a < s[i + 1].addr)
  }

  // Writing headers and free space leaves every live block as it is.
  lemma BlocksKept(m: Memory, m': Memory, s: seq<Area>, touched: set<int>)
    requires Ascending(s) && SameExcept(m, m', touched)
    requires forall a :: a in touched ==> exists i: nat :: i < |s| && Spare(s, i, a)
    ensures forall x :: x in Live(s) ==> SameBlock(m, m', x)
  {
    forall x | x in Live(s)
      ensures SameBlock(m, m', x)
    {
      var l :| 0 <= l < |s| - 1 && s[l].used && x == Extent(s, l);
      forall a | x.0 <= a < x.0 + x.1 && a in m
        ensures a !in touched
      {
        forall i: nat | i < |s|
          ensures !Spare(s, i, a)
        {
          assert i < l || i == l || i == l + 1 || i > l + 1;
        }
      }
    }
  }

  // The contents of every area, used or free, are unchanged.
  ghost predicate SameAreas(m: Memory, m': Memory, s: seq<Area>) {
    forall l: nat :: l < |s| - 1 ==> SameBlock(m, m', Extent(s, l))
  }

  lemma HeaderWritesKeepAreas(m: Memory, m': Memory, s: seq<Area>, touched: set<int>)
    requires Ascending(s) && SameExcept(m, m', touched)
    requires forall a :: a in touched ==> exists i: nat :: i < |s| && s[i].addr <= a < s[i].addr + HEADER
    ensures SameAreas(m, m', s)
  {
    forall l: nat, a | l < |s| - 1 && Extent(s, l).0 <= a < Extent(s, l).0 + Extent(s, l).1 && a in m
      ensures a !in touched
    {
      forall i: nat | i < |s|
        ensures !(s[i].addr <= a < s[i].addr + HEADER)
      {
        assert i < l || i == l || i == l + 1 || i > l + 1;
      }
    }
  }

  lemma AreasKeepBlocks(m: Memory, m': Memory, s: seq<Area>)
    requires SameAreas(m, m', s)
    ensures forall x :: x in Live(s) ==> SameBlock(m, m', x)
  {
  }

  // ---------- Contents of blocks ----------

  ghost function BlockWords(s: seq<Area>, i: nat): set<int>
    requires i < |s| - 1
  {
    set a | s[i].addr + HEADER <= a < s[i + 1].addr && InPayload(s, i, a)
  }

  predicate InPayload(s: seq<Area>, i: nat, a: int)
    requires i < |s| - 1
  {
    s[i].addr + HEADER <= a < s[i + 1].addr
  }

  // Writing inside one block disturbs neither the list nor another area.
  lemma BlockWritesKeep(m: Memory, m': Memory, s: seq<Area>, i: nat, lo: int, hi: int)
    requires Laid(m, s, lo, hi) && i < |s| - 1 && SameExcept(m, m', BlockWords(s, i))
    ensures Laid(m', s, lo, hi)
    ensures forall l: nat :: l < |s| - 1 && l != i ==> SameBlock(m, m', Extent(s, l))
  {
    hide Address, UsedBit, EpsilonBit, Aligned;
    forall l: nat | l < |s|
      ensures HeaderAt(m', s, l)
    {
      assert HeaderAt(m, s, l);
      assert l < i || l == i || l == i + 1 || l > i + 1;
    }
    forall l: nat | l < |s| - 1 && l != i
      ensures SameBlock(m, m', Extent(s, l))
    {
      assert l < i || l == i + 1 || l > i + 1;
    }
  }

  // All words of area i are mapped.
  ghost predicate AreaMapped(m: Memory, s: seq<Area>, i: nat)
    requires i < |s| - 1
  {
    forall a :: s[i].addr <= a < s[i + 1].addr && a % 4 == 0 ==> a in m
  }

  // Every area but the last one is mapped as a whole.
  lemma BackedAreas(m: Memory, s: seq<Area>, i: nat, lo: int, hi: int)
    requires Laid(m, s, lo, hi) && i + 2 < |s|
    ensures AreaMapped(m, s, i)
  {
    assert s[0].addr <= s[i].addr && s[i + 1].addr <= s[|s| - 2].addr;
  }

  // A byte of the memory.
  function ByteAt(m: Memory, b: int): int
    requires b - b % 4 in m
  {
    ByteOf(m[b - b % 4], b % 4)
  }

  ghost predicate ZeroBytes(m: Memory, from: int, to: int) {
    forall b :: from <= b < to ==> ZeroByte(m, b)
  }

  ghost predicate ZeroByte(m: Memory, b: int) {
    b - b % 4 in m && ByteAt(m, b) == 0
  }

  lemma ZeroOneMore(m: Memory, m': Memory, from: int, b: int)
    requires ZeroBytes(m, from, b) && from <= b && b - b % 4 in m
    requires m' == m[b - b % 4 := WithByte(m[b - b % 4], b % 4, 0)]
    ensures ZeroBytes(m', from, b + 1)
  {
    forall c | from <= c < b + 1
      ensures ZeroByte(m', c)
    {
      WithByteBytes(m[b - b % 4], b % 4, 0, c % 4);
      if c < b {
        assert ZeroByte(m, c);
      }
    }
  }

  // The word of a byte of an area belongs to the area.
  lemma WordOfByte(s: seq<Area>, i: nat, b: int)
    requires i < |s| - 1 && s[i].addr % 8 == 0 && s[i].addr + HEADER <= b < s[i + 1].addr
    ensures s[i].addr + HEADER <= b - b % 4 && (b - b % 4) % 4 == 0 && b - b % 4 in BlockWords(s, i)
  {
    Quads(s[i].addr / 8, b);
  }

  lemma Quads(w: int, b: int)
    requires 8 * w + 8 <= b
    ensures 8 * w + 8 <= b - b % 4 && (b - b % 4) % 4 == 0
  {
    assert b - b % 4 == b / 4 * 4;
  }
}

// The heap's memory as the processor sees it through the page tables.
module HeapView {
  import opened Words
  import opened PageTables
  import opened FrameRoles
  import opened FrameBudgets
  import opened PageEntries
  import opened HeapLayout

  predicate Mapped(m: seq<PageFrame>, cr3: nat, a: int)
    requires Ram(m, cr3)
  {
    0 <= a < 0xFFC0_0000 && Translate(m, cr3, PageOf(a)).Some?
  }

  function WordAt(m: seq<PageFrame>, cr3: nat, a: int): Word
    requires Ram(m, cr3) && Mapped(m, cr3, a)
  {
    m[Translate(m, cr3, PageOf(a)).value][WordIndex(a)]
  }

  // The mapped words of lo..hi.
  ghost function View(m: seq<PageFrame>, cr3: nat, lo: int, hi: int): Memory
    requires Ram(m, cr3)
  {
    map a: int | lo <= a < hi && a % 4 == 0 && Mapped(m, cr3, a) :: WordAt(m, cr3, a)
  }

  lemma SameWord(a: Word, b: Word)
    requires a % 4 == 0 && b % 4 == 0 && PageOf(a) == PageOf(b) && WordIndex(a) == WordIndex(b)
    ensures a == b
  {
    WordOfPage(a);
    WordOfPage(b);
  }

  lemma WordOfPage(a: Word)
    requires a % 4 == 0
    ensures a == PageOf(a) * PAGE_SIZE + WordIndex(a) * 4
  {
    var r := a % PAGE_SIZE;
    assert a == PageOf(a) * PAGE_SIZE + r;
    Quarter(a / 4, PageOf(a), r);
  }

  lemma Quarter(q: int, p: int, r: int)
    requires 4 * q == p * 4096 + r
    ensures r / 4 * 4 == r
  {
    assert r == 4 * (q - p * 1024);
  }

  lemma PageBounds(a: int)
    requires 0 <= a < 0xFFC0_0000
    ensures PageOf(a) < WINDOW * ENTRIES
  {
  }

  lemma PageMonotone(a: Word, b: Word)
    requires a <= b
    ensures PageOf(a) <= PageOf(b)
  {
  }

  // The frame behind a managed page is not free, nor the directory, nor a table.
  lemma BackingApart(m: seq<PageFrame>, cr3: nat, first: nat, last: nat, free: set<nat>, p: nat)
    requires Ownership(m, cr3, first, last, free)
    requires first <= p <= last && p < WINDOW * ENTRIES && Translate(m, cr3, p).Some?
    ensures var f := Translate(m, cr3, p).value;
      && f !in free && f != 0 && f != cr3
      && forall t: nat :: t < WINDOW ==> TableOf(m, cr3, t) != Some(f)
  {
    var f := Translate(m, cr3, p).value;
    var b := Backing(p);
    assert FrameOfRole(m, cr3, b) == Some(f) && InRange(b, first, last);
    assert FrameOfRole(m, cr3, Directory) == Some(cr3) && InRange(Directory, first, last);
    forall t: nat | t < WINDOW
      ensures TableOf(m, cr3, t) != Some(f)
    {
      assert FrameOfRole(m, cr3, Table(t)) == TableOf(m, cr3, t) && InRange(Table(t), first, last);
    }
  }

  // Frames with one role do not alias: a store to a managed page changes no
  // directory and no table, so no frame's role.
  lemma StoreKeepsRoles(m: seq<PageFrame>, cr3: nat, first: nat, last: nat, free: set<nat>, p: nat, i: nat, w: Word)
    requires Ownership(m, cr3, first, last, free)
    requires first <= p <= last && p < WINDOW * ENTRIES && i < ENTRIES && Translate(m, cr3, p).Some?
    ensures var m' := Poke(m, Translate(m, cr3, p).value, i, w);
      && Ram(m', cr3)
      && (forall r :: FrameOfRole(m', cr3, r) == FrameOfRole(m, cr3, r))
      && Ownership(m', cr3, first, last, free)
  {
    var f := Translate(m, cr3, p).value;
    var m' := Poke(m, f, i, w);
    BackingApart(m, cr3, first, last, free, p);
    assert m'[cr3] == m[cr3];
    RolesFromTables(m, m', cr3, f);
    hide FrameOfRole, InRange, TableOf, Poke;
  }

  lemma RolesFromTables(m: seq<PageFrame>, m': seq<PageFrame>, cr3: nat, f: nat)
    requires Ram(m, cr3) && Ram(m', cr3) && m'[cr3] == m[cr3]
    requires forall g :: 0 <= g < FRAMES && g != f ==> m'[g] == m[g]
    requires forall t: nat :: t < WINDOW ==> TableOf(m, cr3, t) != Some(f)
    ensures forall r :: FrameOfRole(m', cr3, r) == FrameOfRole(m, cr3, r)
    ensures SelfMapped(m, cr3) ==> SelfMapped(m', cr3)
  {
    assert forall t: nat :: t < ENTRIES ==> TableOf(m', cr3, t) == TableOf(m, cr3, t);
    hide TableOf, Present, FrameOf;
    assert forall q: nat :: q < WINDOW * ENTRIES ==> Translate(m', cr3, q) == Translate(m, cr3, q);
  }

  // The managed pages allow writing, and so do all page tables.
  ghost predicate WritableRange(m: seq<PageFrame>, cr3: nat, first: nat, last: nat)
    requires Ram(m, cr3)
  {
    && WritableTables(m, cr3)
    && forall p: nat :: first <= p <= last && p < WINDOW * ENTRIES && Translate(m, cr3, p).Some? ==> Writable(m, cr3, p)
  }

  lemma StoreKeepsRange(m: seq<PageFrame>, cr3: nat, lo: int, hi: int, free: set<nat>, a: Word, w: Word)
    requires 0 <= lo <= a < hi <= 0xFFC0_0000
    requires Ownership(m, cr3, PageOf(lo), PageOf(hi - 1), free) && Mapped(m, cr3, a)
    requires WritableRange(m, cr3, PageOf(lo), PageOf(hi - 1))
    ensures Writable(m, cr3, PageOf(a))
    ensures var m' := Poke(m, Translate(m, cr3, PageOf(a)).value, WordIndex(a), w);
      Ram(m', cr3) && WritableRange(m', cr3, PageOf(lo), PageOf(hi - 1))
  {
    hide PageOf, WordIndex, Writable, WritableTables, InRange, OneRole, InUse, FrameOfRole;
    PageMonotone(lo, a);
    PageMonotone(a, hi - 1);
    PageBounds(a);
    var f := Translate(m, cr3, PageOf(a)).value;
    var m' := Poke(m, f, WordIndex(a), w);
    BackingApart(m, cr3, PageOf(lo), PageOf(hi - 1), free, PageOf(a));
    StoreKeepsWritable(m, m', cr3, f);
    WritableIsMapped(m, m', cr3, PageOf(lo), PageOf(hi - 1), f);
  }

  lemma WritableIsMapped(m: seq<PageFrame>, m': seq<PageFrame>, cr3: nat, first: nat, last: nat, f: nat)
    requires Ram(m, cr3) && Ram(m', cr3) && m'[cr3] == m[cr3]
    requires forall g :: 0 <= g < FRAMES && g != f ==> m'[g] == m[g]
    requires forall t: nat :: t < WINDOW ==> TableOf(m, cr3, t) != Some(f)
    requires WritableRange(m, cr3, first, last) && WritableTables(m', cr3)
    requires forall p: nat :: p < WINDOW * ENTRIES ==> Writable(m', cr3, p) == Writable(m, cr3, p)
    ensures WritableRange(m', cr3, first, last)
  {
    hide Writable, WritableTables;
    RolesFromTables(m, m', cr3, f);
    forall p: nat | p < WINDOW * ENTRIES
      ensures Translate(m', cr3, p) == Translate(m, cr3, p)
    {
      RoleOfPage(m, cr3, p);
      RoleOfPage(m', cr3, p);
    }
  }

  // Growing with writable flags keeps all managed pages writable.
  lemma GrowKeepsRange(m: seq<PageFrame>, cr3: nat, first: nat, last: nat, free: set<nat>,
                       pa: Word, spare: nat, va: Word, flags: nat)
    requires Ownership(m, cr3, first, last, free) && WritableRange(m, cr3, first, last)
    requires pa % PAGE_SIZE == 0 && va % PAGE_SIZE == 0 && va < 0xFFC0_0000
    requires spare < FRAMES && NoTable(m, cr3, spare) && Translate(m, cr3, PageOf(va)) == None && Bit(flags, 1) == 1
    ensures var (e, m') := MapPage(m, cr3, spare, pa, va, flags);
      && e == 0 && Ram(m', cr3)
      && WritableRange(m', cr3, first, last) && NewFlags(m, m', cr3, flags)
  {
    hide Bit, Writable, WritableTables, PageStored, NewFlags, InRange, OneRole, InUse, FrameOfRole, MapPage, PageOf, MapError;
    OwnedTables(m, cr3, first, last, free);
    PageBounds(va);
    MapPageStores(m, cr3, spare, pa, va, flags);
    MapPageAddsOne(m, cr3, spare, pa, va, flags);
    var m' := MapPage(m, cr3, spare, pa, va, flags).1;
    MapPageWritable(m, m', cr3, spare, pa, va, flags);
  }

  lemma StoreKeepsEntries(m: seq<PageFrame>, cr3: nat, first: nat, last: nat, free: set<nat>, p: nat, i: nat, w: Word)
    requires Ownership(m, cr3, first, last, free)
    requires first <= p <= last && p < WINDOW * ENTRIES && i < ENTRIES && Translate(m, cr3, p).Some?
    ensures var m' := Poke(m, Translate(m, cr3, p).value, i, w); Ram(m', cr3) && SameEntries(m, m', cr3)
  {
    hide Writable, WritableTables, InRange, OneRole, InUse, FrameOfRole, EntryOf;
    BackingApart(m, cr3, first, last, free, p);
    StoreKeepsWritable(m, Poke(m, Translate(m, cr3, p).value, i, w), cr3, Translate(m, cr3, p).value);
  }

  // A store to a managed word changes that word and no other managed word.
  lemma StoreChangesOneWord(m: seq<PageFrame>, cr3: nat, lo: int, hi: int, free: set<nat>, a: Word, w: Word)
    requires 0 <= lo <= a < hi <= 0xFFC0_0000 && a % 4 == 0
    requires Ownership(m, cr3, PageOf(lo), PageOf(hi - 1), free) && Mapped(m, cr3, a)
    ensures var m' := Poke(m, Translate(m, cr3, PageOf(a)).value, WordIndex(a), w);
      && Ownership(m', cr3, PageOf(lo), PageOf(hi - 1), free)
      && SameRoles(m, m', cr3)
      && View(m', cr3, lo, hi) == View(m, cr3, lo, hi)[a := w]
  {
    var f := Translate(m, cr3, PageOf(a)).value;
    var m' := Poke(m, f, WordIndex(a), w);
    PageMonotone(lo, a);
    PageMonotone(a, hi - 1);
    PageBounds(a);
    StoreKeepsRoles(m, cr3, PageOf(lo), PageOf(hi - 1), free, PageOf(a), WordIndex(a), w);
    StoreKeepsEntries(m, cr3, PageOf(lo), PageOf(hi - 1), free, PageOf(a), WordIndex(a), w);
    forall b: Word | lo <= b < hi && b % 4 == 0
      ensures Mapped(m', cr3, b) == Mapped(m, cr3, b)
      ensures Mapped(m, cr3, b) ==> WordAt(m', cr3, b) == if b == a then w else WordAt(m, cr3, b)
    {
      PageMonotone(lo, b);
      PageMonotone(b, hi - 1);
      PageBounds(b);
      RoleOfPage(m, cr3, PageOf(b));
      RoleOfPage(m', cr3, PageOf(b));
      if Mapped(m, cr3, b) && Translate(m, cr3, PageOf(b)) == Some(f) {
        SamePage(m, cr3, PageOf(lo), PageOf(hi - 1), free, PageOf(a), PageOf(b));
        if WordIndex(a) == WordIndex(b) {
          SameWord(a, b);
        }
      }
    }
    hide Translate, Mapped, WordAt, PageOf, EntryOf;
  }

  lemma RoleOfPage(m: seq<PageFrame>, cr3: nat, p: nat)
    requires Ram(m, cr3) && p < WINDOW * ENTRIES
    ensures FrameOfRole(m, cr3, Backing(p)) == Translate(m, cr3, p)
  {
  }

  lemma SamePage(m: seq<PageFrame>, cr3: nat, first: nat, last: nat, free: set<nat>, p: nat, q: nat)
    requires Ownership(m, cr3, first, last, free)
    requires first <= p <= last && p < WINDOW * ENTRIES && first <= q <= last && q < WINDOW * ENTRIES
    requires Translate(m, cr3, p).Some? && Translate(m, cr3, p) == Translate(m, cr3, q)
    ensures p == q
  {
    assert FrameOfRole(m, cr3, Backing(p)) == FrameOfRole(m, cr3, Backing(q));
    assert InRange(Backing(p), first, last) && InRange(Backing(q), first, last);
  }

  // map_page writes to the directory, to one table, and to a new table.
  lemma MapPageTouches(m: seq<PageFrame>, cr3: nat, spare: nat, pa: Word, va: Word, flags: nat, g: nat)
    requires WellFormed(m, cr3) && spare < FRAMES && NoTable(m, cr3, spare) && PageOf(va) < WINDOW * ENTRIES
    requires g < FRAMES && g != cr3 && g != spare && TableOf(m, cr3, PageOf(va) / ENTRIES) != Some(g)
    ensures |MapPage(m, cr3, spare, pa, va, flags).1| == FRAMES
    ensures MapPage(m, cr3, spare, pa, va, flags).1[g] == m[g]
  {
    WithTableKeeps(m, cr3, PageOf(va) / ENTRIES, spare);
    hide WellFormed, Entry, PageOf;
  }

  // All words of lo..hi on this page are there.
  ghost predicate HasPage(v: Memory, lo: int, hi: int, page: nat) {
    forall a: Word :: lo <= a < hi && a % 4 == 0 && PageOf(a) == page ==> a in v
  }

  // The translations of all other pages below the window are the same.
  ghost predicate OthersSame(m: seq<PageFrame>, m': seq<PageFrame>, cr3: nat, page: nat)
    requires Ram(m, cr3) && Ram(m', cr3)
  {
    forall p: nat :: p < WINDOW * ENTRIES && p != page ==> Translate(m', cr3, p) == Translate(m, cr3, p)
  }

  // Growing by one page keeps every managed word and adds those of the page.
  lemma GrowAddsPage(m: seq<PageFrame>, cr3: nat, lo: int, hi: int, free: set<nat>,
                     pa: Word, spare: nat, va: Word, flags: nat)
    requires 0 <= lo < hi <= 0xFFC0_0000
    requires Ownership(m, cr3, PageOf(lo), PageOf(hi - 1), free)
    requires pa % PAGE_SIZE == 0 && FrameOf(pa) in free
    requires spare in free && spare != cr3
    requires NeedsTable(m, cr3, va) ==> spare != FrameOf(pa)
    requires va % PAGE_SIZE == 0 && PageOf(lo) <= PageOf(va) <= PageOf(hi - 1)
    requires Translate(m, cr3, PageOf(va)) == None
    ensures var (e, m') := MapPage(m, cr3, spare, pa, va, flags);
      && e == 0 && Ram(m', cr3)
      && Ownership(m', cr3, PageOf(lo), PageOf(hi - 1), free - {FrameOf(pa)} - Taken(m, cr3, va, spare))
      && Extends(View(m, cr3, lo, hi), View(m', cr3, lo, hi))
      && HasPage(View(m', cr3, lo, hi), lo, hi, PageOf(va))
      && OthersSame(m, m', cr3, PageOf(va))
      && Filled(m, m', cr3, PageOf(va))
  {
    PageMonotone(hi - 1, 0xFFBF_FFFF);
    OwnedTables(m, cr3, PageOf(lo), PageOf(hi - 1), free);
    GrowKeepsOwnership(m, cr3, PageOf(lo), PageOf(hi - 1), free, pa, spare, va, flags);
    MapPageAddsOne(m, cr3, spare, pa, va, flags);
    MapPageFills(m, cr3, spare, pa, va, flags);
    var m' := MapPage(m, cr3, spare, pa, va, flags).1;
    forall a | a in View(m, cr3, lo, hi)
      ensures a in View(m', cr3, lo, hi) && View(m', cr3, lo, hi)[a] == View(m, cr3, lo, hi)[a]
    {
      var f := Translate(m, cr3, PageOf(a)).value;
      PageMonotone(lo, a);
      PageMonotone(a, hi - 1);
      BackingApart(m, cr3, PageOf(lo), PageOf(hi - 1), free, PageOf(a));
      assert PageOf(va) / ENTRIES < WINDOW;
      MapPageTouches(m, cr3, spare, pa, va, flags, f);
    }
  }
}
