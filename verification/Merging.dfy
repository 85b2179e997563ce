// merge_free_areas on the words of the heap. As written the stored prev may be
// stray: name a word of free space or of a live block, and no header.
module Merging {
  import opened Words
  import opened HeaderWords
  import opened Areas
  import opened AreaTheorems
  import opened HeapRuns
  import opened HeapLayout

  // Index of the header in front of ptr (0 if there is none).
  function HeaderIndex(s: seq<Area>, ptr: int): (i: nat)
    requires |s| > 1
    ensures i < |s| - 1
  {
    var f := FindHeader(s[..|s| - 1], ptr - HEADER);
    if f.Some? then f.value else 0
  }

  // ---------- What kfree reads and stores there ----------

  // The used bit of the word that the prev of header i names.
  predicate BitBehind(m: Memory, s: seq<Area>, i: nat)
    requires i < |s|
  {
    s[i].prev in m && UsedBit(m[s[i].prev])
  }

  // The memory after kfree of area i has stored through a stray prev: a word
  // whose used bit is clear is taken for a free header and gets a new next.
  function Scribbled(m: Memory, s: seq<Area>, i: nat): (m': Memory)
    requires i < |s| - 1
    ensures m'.Keys == m.Keys
  {
    var p := s[i].prev;
    if StoredHeader(s, i).None? && p in m && !UsedBit(m[p])
    then m[p := WithAddress(m[p], s[RootTarget(s, i)].addr % 0x1_0000_0000)]
    else m
  }

  // The same for a call of kfree.
  predicate Frees(s: seq<Area>, ptr: int)
    requires |s| > 1
  {
    var i := HeaderIndex(s, ptr);
    ptr != 0 && s[i].addr == ptr - HEADER && s[i].used
  }

  predicate FreeBit(m: Memory, s: seq<Area>, ptr: int)
    requires |s| > 1
  {
    BitBehind(m, s, HeaderIndex(s, ptr))
  }

  function AfterStray(m: Memory, s: seq<Area>, ptr: int): (m': Memory)
    requires |s| > 1
    ensures m'.Keys == m.Keys
  {
    if Frees(s, ptr) then Scribbled(m, s, HeaderIndex(s, ptr)) else m
  }

  // kfree of ptr overwrites a word of block x: the stored prev is stray and
  // names a word in x whose used bit is clear, and which does not happen to hold
  // the address that is stored.
  predicate Overwrites(m: Memory, s: seq<Area>, ptr: int, x: (int, int))
    requires |s| > 1
  {
    var i := HeaderIndex(s, ptr);
    var p := s[i].prev;
    && Frees(s, ptr) && StoredHeader(s, i).None?
    && x.0 <= p < x.0 + x.1 && p in m && !UsedBit(m[p])
    && Address(m[p]) != s[RootTarget(s, i)].addr
  }

  // What kfree of ptr leaves of the live blocks: all of them but for the stray
  // store, which is made into a block exactly if it overwrites it.
  ghost predicate FreedContents(m: Memory, m': Memory, s: seq<Area>, ptr: int)
    requires |s| > 1
  {
    forall x :: x in Live(s) ==>
      && SameBlock(AfterStray(m, s, ptr), m', x)
      && (SameBlock(m, m', x) <==> !Overwrites(m, s, ptr, x))
  }

  lemma OverwritesExactly(m: Memory, s: seq<Area>, ptr: int, x: (int, int), lo: int, hi: int)
    requires Tiled(s, lo, hi) && 0 <= lo && hi < 0x1_0000_0000
    ensures SameBlock(m, AfterStray(m, s, ptr), x) <==> !Overwrites(m, s, ptr, x)
  {
    hide UsedBit, Address, WithAddress, RootTarget, StoredHeader, Live, HeaderIndex, Ascending;
    var i := HeaderIndex(s, ptr);
    var d := RootTarget(s, i);
    AddressRange(s, d, lo, hi);
    if s[i].prev in m {
      SameLink(m[s[i].prev], s[d].addr);
    }
  }

  lemma AddressRange(s: seq<Area>, d: nat, lo: int, hi: int)
    requires Tiled(s, lo, hi) && d < |s|
    ensures lo <= s[d].addr <= hi && s[d].addr % 8 == 0
  {
  }

  lemma SameLink(w: Word, a: Word)
    requires a % 8 == 0
    ensures WithAddress(w, a) == w <==> Address(w) == a
  {
  }

  lemma FreedContentsFrom(m: Memory, m': Memory, s: seq<Area>, ptr: int, lo: int, hi: int)
    requires Tiled(s, lo, hi) && 0 <= lo && hi < 0x1_0000_0000
    requires forall x :: x in Live(s) ==> SameBlock(AfterStray(m, s, ptr), m', x)
    ensures FreedContents(m, m', s, ptr)
  {
    hide Live, AfterStray, Overwrites, Ascending, Aligned;
    forall x | x in Live(s)
      ensures SameBlock(m, m', x) <==> !Overwrites(m, s, ptr, x)
    {
      OverwritesExactly(m, s, ptr, x, lo, hi);
      assert SameBlock(AfterStray(m, s, ptr), m', x);
      SameAsEither(m, AfterStray(m, s, ptr), m', x);
    }
  }

  lemma SameAsEither(m: Memory, m1: Memory, m2: Memory, x: (int, int))
    requires m1.Keys == m.Keys && SameBlock(m1, m2, x)
    ensures SameBlock(m, m2, x) <==> SameBlock(m, m1, x)
  {
    if SameBlock(m, m2, x) {
      forall a | x.0 <= a < x.0 + x.1 && a in m
        ensures m1[a] == m[a]
      {
        assert a in m1;
      }
    }
  }

  // A well linked list has no stray prev.
  lemma LinkedContents(m: Memory, m': Memory, s: seq<Area>, ptr: int, lo: int, hi: int)
    requires Tiled(s, lo, hi) && Linked(s) && Coalesced(s) && 0 < lo && FreedContents(m, m', s, ptr)
    ensures forall x :: x in Live(s) ==> SameBlock(m, m', x)
  {
    hide Live, SameBlock;
    StoredHeaderIsPred(s, HeaderIndex(s, ptr), lo, hi);
  }

  // ---------- The stores of merge_free_areas ----------

  ghost predicate HeaderRead(m: Memory, f: seq<Area>, i: nat)
    requires i < |f|
  {
    HeaderAt(m, f, i) && f[i].addr > 0 && f[i].addr % 8 == 0
  }

  // A stray prev names a mapped word that belongs to no header.
  lemma StrayFacts(m: Memory, f: seq<Area>, i: nat, lo: int, hi: int)
    requires Laid(m, f, lo, hi) && Backward(f, lo) && 0 < lo && i < |f| - 1 && StoredHeader(f, i).None?
    ensures StrayWord(m, f, i)
  {
    hide Live, UsedBit, EpsilonBit;
    var p := f[i].prev;
    assert HeaderAt(m, f, i);
    assert f[i].addr <= f[|f| - 2].addr;
    EightFour(m[f[i].addr + 4]);
    forall k | 0 <= k < |f|
      ensures f[k].addr != p
    {
      if k < i {
        assert f[..i][k].addr != p;
      } else {
        assert f[i].addr <= f[k].addr;
      }
    }
  }

  lemma EightFour(w: Word)
    ensures Address(w) % 8 == 0 && Address(w) % 4 == 0
  {
    assert Address(w) == w / 8 * 8;
    Eight(w / 8);
  }

  lemma Eight(q: int)
    ensures q * 8 % 8 == 0 && q * 8 % 4 == 0
  {
    assert q * 8 == (q * 2) * 4;
    Four(q * 2);
  }

  lemma Four(q: int)
    ensures q * 4 % 4 == 0
  {
  }

  ghost predicate StrayWord(m: Memory, f: seq<Area>, i: nat)
    requires i < |f|
  {
    var p := f[i].prev;
    p in m && 0 < p < 0x1_0000_0000 && p % 8 == 0 && forall k :: 0 <= k < |f| ==> f[k].addr != p
  }

  // Both stores of a merge towards a word that is no header: only the prev of
  // header d changes in the list.
  lemma StrayLaid(m: Memory, f: seq<Area>, i: nat, d: nat, lo: int, hi: int)
    requires Laid(m, f, lo, hi) && 0 < lo && hi < 0x1_0000_0000 && i < d < |f|
    requires StrayWord(m, f, i) && HeaderRead(m, f, d) && f[d].addr < 0x1_0000_0000
    ensures var p, a := f[i].prev, f[d].addr;
      var m1 := m[p := WithAddress(m[p], a)];
      a + 4 in m1 &&
      var m2 := m1[a + 4 := WithAddress(m1[a + 4], p)];
      && m2 == m[a + 4 := WithAddress(m[a + 4], p)][p := WithAddress(m[p], a)]
      && m[a + 4 := WithAddress(m[a + 4], p)][p] == m[p]
      && Laid(m2, f[d := f[d].(prev := p)], lo, hi) && SameAreas(m1, m2, f)
  {
    hide Address, UsedBit, EpsilonBit, WithAddress, Live, Holds, Backed, Ascending;
    var p, a := f[i].prev, f[d].addr;
    var m1 := m[p := WithAddress(m[p], a)];
    var m2 := m1[a + 4 := WithAddress(m1[a + 4], p)];
    FourOff(a, p);
    SetLink(m1[a + 4], p);
    assert m2 == m[a + 4 := WithAddress(m[a + 4], p)][p := WithAddress(m[p], a)];
    StrayHolds(m, f, d, p, m2);
    StrayBacked(m, m2, f, d, p, lo);
    HeaderWritesKeepAreas(m1, m2, f, {a + 4});
  }

  lemma StrayHolds(m: Memory, f: seq<Area>, d: nat, p: int, m': Memory)
    requires Holds(m, f) && Ascending(f) && Aligned(f) && d < |f|
    requires p % 8 == 0 && forall k :: 0 <= k < |f| ==> f[k].addr != p
    requires SameExcept(m, m', {p, f[d].addr + 4}) && f[d].addr + 4 in m && Address(m'[f[d].addr + 4]) == p
    ensures Holds(m', f[d := f[d].(prev := p)])
  {
    hide Address, UsedBit, EpsilonBit;
    var t := f[d := f[d].(prev := p)];
    forall k: nat | k < |t|
      ensures HeaderAt(m', t, k)
    {
      assert HeaderAt(m, f, k);
      FourOff(f[k].addr, p);
      FourOff(f[d].addr, f[k].addr);
      if k != d {
        HeadersApart(f, k, d);
      }
    }
  }

  lemma StrayBacked(m: Memory, m': Memory, f: seq<Area>, d: nat, p: int, lo: int)
    requires |f| >= 2 && d < |f| && Backed(m, f, lo) && m'.Keys == m.Keys && Ascending(f)
    ensures Backed(m', f[d := f[d].(prev := p)], lo) && Ascending(f[d := f[d].(prev := p)])
  {
  }

  // An 8-aligned address is no second word of a header.
  lemma FourOff(a: int, p: int)
    requires a % 8 == 0 && p % 8 == 0
    ensures a + 4 != p
  {
  }

  // Marking area i free first makes no difference to the stray store.
  lemma ScribbledAfterUnmark(m: Memory, m1: Memory, s: seq<Area>, i: nat)
    requires i < |s| - 1 && s[i].addr in m && m1 == m[s[i].addr := WithUsed(m[s[i].addr], false)]
    requires SameAreas(m, m1, s) && (StoredHeader(s, i).None? ==> s[i].prev != s[i].addr)
    ensures SameAreas(Scribbled(m, s, i), Scribbled(m1, Unmark(s, i), i), s)
    ensures StoredHeader(s, i).None? ==> BitBehind(m1, Unmark(s, i), i) == BitBehind(m, s, i)
    ensures StoredHeader(Unmark(s, i), i) == StoredHeader(s, i)
  {
    hide WithAddress, UsedBit, WithUsed, FindHeader;
    assert Unmark(s, i)[..i] == s[..i];
  }

  // merge_free_areas of the free area i, whose prev may be stray.
  function MergeAt(repaired: bool, f: seq<Area>, i: nat, bit: bool): seq<Area>
    requires i < |f| - 1 && !TakesSentinel(repaired, f, i)
  {
    match StoredHeader(f, i)
    case Some(j) => Merge(repaired, f, i, j)
    case None => MergeStray(repaired, f, i, bit)
  }

  // What merge_free_areas reads about area i and its neighbours.
  lemma Neighbours(m: Memory, f: seq<Area>, i: nat, j: Option<nat>, lo: int, hi: int)
    requires Laid(m, f, lo, hi) && 0 < lo && i < |f| - 1 && (j.Some? ==> StoredPrev(f, i, j))
    ensures HeaderRead(m, f, i) && HeaderRead(m, f, i + 1) && f[i].addr + HEADER <= f[i + 1].addr
    ensures i + 2 < |f| ==> HeaderRead(m, f, i + 2) && f[i + 1].addr + HEADER <= f[i + 2].addr
    ensures j.Some? ==> HeaderRead(m, f, j.value) && f[j.value].addr + HEADER <= f[i].addr
  {
    hide Address, UsedBit, EpsilonBit, Live;
    assert HeaderAt(m, f, i) && HeaderAt(m, f, i + 1);
    assert f[0].addr <= f[i].addr < f[i + 1].addr;
    if i + 2 < |f| {
      assert HeaderAt(m, f, i + 2);
    }
    if j.Some? {
      assert HeaderAt(m, f, j.value) && f[0].addr <= f[j.value].addr;
    }
  }

  lemma SpliceLaid(m: Memory, f: seq<Area>, j: nat, i: nat, prev: int, d: nat, m': Memory, lo: int, hi: int)
    requires Laid(m, f, lo, hi) && 0 < lo && hi < 0x1_0000_0000 && j < d <= i < |f|
    requires 0 <= f[i].addr < 0x1_0000_0000
    requires f[j].addr in m && f[i].addr + 4 in m && f[i].addr % 8 == 0 && m'.Keys == m.Keys
    requires SameExcept(m, m', {f[j].addr, f[i].addr + 4, f[d].addr + 4})
    requires m'[f[j].addr] == WithAddress(m[f[j].addr], f[i].addr)
    requires Address(m'[f[i].addr + 4]) == prev
    ensures Laid(m', Splice(f, j, i, prev), lo, hi) && SameAreas(m, m', f)
  {
    hide Splice, Live, Address, WithAddress, UsedBit, EpsilonBit;
    SpliceAt(f, j, i, prev);
    SpliceHolds(m, f, j, i, prev, d, m');
    SpliceTiled(f, j, i, prev, lo, hi);
    HeaderWritesKeepAreas(m, m', f, {f[j].addr, f[i].addr + 4, f[d].addr + 4});
    BackedAfterSplice(m, m', f, j, i, prev, lo);
  }

  lemma BackedAfterSplice(m: Memory, m': Memory, f: seq<Area>, j: nat, i: nat, prev: int, lo: int)
    requires Ascending(f) && |f| >= 2 && Backed(m, f, lo) && m'.Keys == m.Keys && j < i < |f|
    ensures Backed(m', Splice(f, j, i, prev), lo)
  {
    hide Splice;
    SpliceAt(f, j, i, prev);
    if i == |f| - 1 && j < |f| - 2 {
      assert f[j].addr <= f[|f| - 2].addr;
    }
  }

  // The stores of the three merging branches.
  lemma BothLaid(m: Memory, f: seq<Area>, i: nat, j: nat, lo: int, hi: int)
    requires Laid(m, f, lo, hi) && 0 < lo && hi < 0x1_0000_0000 && j < i && i + 2 < |f|
    requires HeaderRead(m, f, j) && HeaderRead(m, f, i) && HeaderRead(m, f, i + 2)
    requires f[j].addr < 0x1_0000_0000 && f[i + 2].addr < 0x1_0000_0000
    ensures var prev, na := f[j].addr, f[i + 2].addr;
      var m1 := m[prev := WithAddress(m[prev], na)];
      na + 4 in m1 &&
      var m2 := m1[na + 4 := WithAddress(m1[na + 4], prev)];
      Laid(m2, Splice(f, j, i + 2, prev), lo, hi) && SameAreas(m, m2, f)
  {
    hide Splice, Live, Address, WithAddress, UsedBit, EpsilonBit, Holds, Backed, Aligned;
    var prev, na := f[j].addr, f[i + 2].addr;
    var m1 := m[prev := WithAddress(m[prev], na)];
    var m2 := m1[na + 4 := WithAddress(m1[na + 4], prev)];
    HeadersApart(f, j, i + 2);
    SetLink(m1[na + 4], prev);
    SpliceLaid(m, f, j, i + 2, prev, i + 2, m2, lo, hi);
  }

  lemma TailLaid(m: Memory, f: seq<Area>, i: nat, repaired: bool, lo: int, hi: int)
    requires Laid(m, f, lo, hi) && 0 < lo && hi < 0x1_0000_0000 && i + 2 < |f|
    requires HeaderRead(m, f, i) && HeaderRead(m, f, i + 1) && HeaderRead(m, f, i + 2)
    requires f[i].addr < 0x1_0000_0000 && f[i + 2].addr < 0x1_0000_0000
    ensures var area, na := f[i].addr, f[i + 2].addr;
      var m1 := m[area := WithAddress(m[area], na)];
      var target := if repaired then na else f[i + 1].addr;
      target + 4 in m1 &&
      var m2 := m1[target + 4 := WithAddress(m1[target + 4], area)];
      && Laid(m2, Splice(f, i, i + 2, if repaired then area else f[i + 2].prev), lo, hi)
      && SameAreas(m, m2, f)
  {
    hide Splice, Live, Address, WithAddress, UsedBit, EpsilonBit, Holds, Backed, Aligned;
    var area, na := f[i].addr, f[i + 2].addr;
    var m1 := m[area := WithAddress(m[area], na)];
    var d := if repaired then i + 2 else i + 1;
    var m2 := m1[f[d].addr + 4 := WithAddress(m1[f[d].addr + 4], area)];
    HeadersApart(f, i, i + 1);
    HeadersApart(f, i, i + 2);
    HeadersApart(f, i + 1, i + 2);
    SetLink(m1[f[d].addr + 4], area);
    SpliceLaid(m, f, i, i + 2, if repaired then area else f[i + 2].prev, d, m2, lo, hi);
  }

  lemma RootLaid(m: Memory, f: seq<Area>, i: nat, j: nat, lo: int, hi: int)
    requires Laid(m, f, lo, hi) && 0 < lo && hi < 0x1_0000_0000 && j < i && i + 1 < |f|
    requires HeaderRead(m, f, j) && HeaderRead(m, f, i) && HeaderRead(m, f, i + 1)
    requires f[j].addr < 0x1_0000_0000 && f[i + 1].addr < 0x1_0000_0000
    ensures var prev, next := f[j].addr, f[i + 1].addr;
      var m1 := m[next + 4 := WithAddress(m[next + 4], prev)];
      var m2 := m1[prev := WithAddress(m1[prev], next)];
      Laid(m2, Splice(f, j, i + 1, prev), lo, hi) && SameAreas(m, m2, f)
  {
    hide Splice, Live, Address, WithAddress, UsedBit, EpsilonBit, Holds, Backed, Aligned;
    var prev, next := f[j].addr, f[i + 1].addr;
    var m1 := m[next + 4 := WithAddress(m[next + 4], prev)];
    var m2 := m1[prev := WithAddress(m1[prev], next)];
    HeadersApart(f, j, i + 1);
    SetLink(m[next + 4], prev);
    SpliceLaid(m, f, j, i + 1, prev, i + 1, m2, lo, hi);
  }

  lemma SameAreasItself(m: Memory, s: seq<Area>)
    ensures SameAreas(m, m, s)
  {
  }

  lemma SameAreasTwice(m: Memory, m1: Memory, m2: Memory, s: seq<Area>, s1: seq<Area>)
    requires |s1| == |s| && forall l :: 0 <= l < |s| ==> s1[l].addr == s[l].addr
    requires SameAreas(m, m1, s) && SameAreas(m1, m2, s1)
    ensures SameAreas(m, m2, s)
  {
    forall l: nat | l < |s| - 1
      ensures SameBlock(m, m2, Extent(s, l))
    {
      assert Extent(s1, l) == Extent(s, l);
      assert SameBlock(m, m1, Extent(s, l)) && SameBlock(m1, m2, Extent(s1, l));
    }
  }

  // What the accessors of merge_free_areas read.
  ghost predicate CanMerge(m: Memory, f: seq<Area>, i: nat, lo: int, hi: int) {
    Laid(m, f, lo, hi) && Backward(f, lo) && 0 < lo && hi < 0x1_0000_0000 && i < |f| - 1 && !f[i].used
  }

  // merge_free_areas would merge towards the root: what prev names looks free.
  ghost predicate LooksFree(m: Memory, f: seq<Area>, i: nat)
    requires i < |f|
  {
    f[i].prev != 0 && f[i].prev in m && !UsedBit(m[f[i].prev])
  }

  lemma MergeReads(m: Memory, f: seq<Area>, i: nat, lo: int, hi: int)
    requires CanMerge(m, f, i, lo, hi)
    ensures var a, n := f[i].addr, f[i + 1].addr;
      && a in m && a + 4 in m && Address(m[a]) == n && Address(m[a + 4]) == f[i].prev
      && (f[i].prev != 0 ==> f[i].prev in m)
      && n > 0 && n in m && n + 4 in m && UsedBit(m[n]) == f[i + 1].used && EpsilonBit(m[n]) == (i + 2 == |f|)
      && FreeBehind(f, i) == (i + 2 < |f| && !UsedBit(m[n]))
      && (i + 2 < |f| ==> Address(m[n]) == f[i + 2].addr && f[i + 2].addr + 4 in m)
  {
    hide Address, UsedBit, EpsilonBit, Live;
    var h := StoredHeader(f, i);
    Neighbours(m, f, i, if h.Some? then h.value else None, lo, hi);
    if h.None? {
      StrayFacts(m, f, i, lo, hi);
    }
  }

  ghost predicate Merged(repaired: bool, m: Memory, m': Memory, f: seq<Area>, i: nat, lo: int, hi: int)
    requires i < |f| - 1 && !TakesSentinel(repaired, f, i)
  {
    && Laid(m', MergeAt(repaired, f, i, BitBehind(m, f, i)), lo, hi)
    && SameAreas(Scribbled(m, f, i), m', f)
  }

  // The stores of the four branches, prev stray or not.
  lemma MergeBoth(repaired: bool, m: Memory, f: seq<Area>, i: nat, lo: int, hi: int)
    requires CanMerge(m, f, i, lo, hi) && !TakesSentinel(repaired, f, i) && LooksFree(m, f, i) && FreeBehind(f, i)
    requires 0 <= f[i + 2].addr < 0x1_0000_0000
    ensures var p, na := f[i].prev, f[i + 2].addr;
      var m1 := m[p := WithAddress(m[p], na)];
      0 <= p < 0x1_0000_0000 && na + 4 in m1 &&
      Merged(repaired, m, m1[na + 4 := WithAddress(m1[na + 4], p)], f, i, lo, hi)
  {
    hide Address, UsedBit, EpsilonBit, WithAddress, Live, Splice, Holds, Backed, Ascending, Aligned, Backward;
    RootCases(m, f, i, lo, hi);
    if StoredHeader(f, i).Some? {
      BothLaid(m, f, i, StoredHeader(f, i).value.value, lo, hi);
    } else {
      StrayLaid(m, f, i, i + 2, lo, hi);
    }
  }

  // What prev names, if it looks free: a free header, or a stray word.
  lemma RootCases(m: Memory, f: seq<Area>, i: nat, lo: int, hi: int)
    requires CanMerge(m, f, i, lo, hi) && LooksFree(m, f, i)
    ensures 0 < f[i].prev < 0x1_0000_0000
    ensures HeaderRead(m, f, i) && HeaderRead(m, f, i + 1) && (i + 2 < |f| ==> HeaderRead(m, f, i + 2))
    ensures match StoredHeader(f, i)
      case None => StrayWord(m, f, i) && !BitBehind(m, f, i)
      case Some(j) => j.Some? && j.value < i && f[j.value].addr == f[i].prev && !f[j.value].used && HeaderRead(m, f, j.value)
  {
    hide Address, UsedBit, EpsilonBit, Live, FindHeader;
    var h := StoredHeader(f, i);
    Neighbours(m, f, i, if h.Some? then h.value else None, lo, hi);
    if h.None? {
      StrayFacts(m, f, i, lo, hi);
    } else {
      AddressRange(f, h.value.value, lo, hi);
    }
  }

  lemma MergeRoot(repaired: bool, m: Memory, f: seq<Area>, i: nat, lo: int, hi: int)
    requires CanMerge(m, f, i, lo, hi) && !TakesSentinel(repaired, f, i) && LooksFree(m, f, i) && !FreeBehind(f, i)
    requires 0 <= f[i + 1].addr < 0x1_0000_0000
    ensures var p, next := f[i].prev, f[i + 1].addr;
      0 <= p < 0x1_0000_0000 && next + 4 in m &&
      var m1 := m[next + 4 := WithAddress(m[next + 4], p)];
      Merged(repaired, m, m1[p := WithAddress(m1[p], next)], f, i, lo, hi)
  {
    hide Address, UsedBit, EpsilonBit, WithAddress, Live, Splice, Holds, Backed, Ascending, Aligned, Backward;
    RootCases(m, f, i, lo, hi);
    if StoredHeader(f, i).Some? {
      RootLaid(m, f, i, StoredHeader(f, i).value.value, lo, hi);
    } else {
      StrayLaid(m, f, i, i + 1, lo, hi);
    }
  }

  lemma MergeTail(repaired: bool, m: Memory, f: seq<Area>, i: nat, lo: int, hi: int)
    requires CanMerge(m, f, i, lo, hi) && !TakesSentinel(repaired, f, i) && !LooksFree(m, f, i) && FreeBehind(f, i)
    requires 0 <= f[i].addr < 0x1_0000_0000 && 0 <= f[i + 2].addr < 0x1_0000_0000
    ensures var area, na := f[i].addr, f[i + 2].addr;
      area in m &&
      var m1 := m[area := WithAddress(m[area], na)];
      var target := if repaired then na else f[i + 1].addr;
      target + 4 in m1 && Merged(repaired, m, m1[target + 4 := WithAddress(m1[target + 4], area)], f, i, lo, hi)
  {
    hide Address, UsedBit, EpsilonBit, WithAddress, Live, Splice, Holds, Backed, Ascending, Aligned, Backward;
    NoRoot(m, f, i, lo, hi);
    TailLaid(m, f, i, repaired, lo, hi);
  }

  lemma MergeNothing(repaired: bool, m: Memory, f: seq<Area>, i: nat, lo: int, hi: int)
    requires CanMerge(m, f, i, lo, hi) && !TakesSentinel(repaired, f, i) && !LooksFree(m, f, i) && !FreeBehind(f, i)
    ensures Merged(repaired, m, m, f, i, lo, hi)
  {
    hide Address, UsedBit, EpsilonBit, WithAddress, Live, Splice, Holds, Backed, Ascending, Aligned, Backward;
    NoRoot(m, f, i, lo, hi);
    SameAreasItself(m, f);
  }

  // What prev names, if it does not look free: a used header, a stray word
  // whose bit is set, or nothing. Then nothing is stored through it.
  lemma NoRoot(m: Memory, f: seq<Area>, i: nat, lo: int, hi: int)
    requires CanMerge(m, f, i, lo, hi) && !LooksFree(m, f, i)
    ensures HeaderRead(m, f, i) && HeaderRead(m, f, i + 1) && (i + 2 < |f| ==> HeaderRead(m, f, i + 2))
    ensures Scribbled(m, f, i) == m
    ensures match StoredHeader(f, i)
      case None => BitBehind(m, f, i)
      case Some(j) => j.Some? ==> f[j.value].used
  {
    hide Address, UsedBit, EpsilonBit, WithAddress, Live, FindHeader, RootTarget;
    var h := StoredHeader(f, i);
    Neighbours(m, f, i, if h.Some? then h.value else None, lo, hi);
    if h.None? {
      StrayFacts(m, f, i, lo, hi);
    }
  }
}
