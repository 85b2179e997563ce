// What kmalloc and kpagealloc grant, in addresses and numbers: which area is
// taken, which pointer is returned, and where the block ends.
module Grants {
  import opened Words
  import opened Areas
  import opened AreaTheorems
  import opened HeapRuns

  // The smallest multiple of 8 that holds the request and a header.
  function ByteNeed(size: int): int {
    (size + 15) / 8 * 8
  }

  // The first page boundary above address a.
  function BoundaryAbove(a: int): (n: int)
    ensures n % 4096 == 0 && a < n <= a + 4096
  {
    var q := a / 4096 + 1;
    BoundaryFacts(q);
    q * 4096
  }

  lemma BoundaryFacts(q: int)
    ensures q * 4096 % 4096 == 0
  {
  }

  // Free area i has more than the rounded size between its header and the next.
  predicate RoomForBytes(s: seq<Area>, size: int, i: nat) {
    i + 1 < |s| && !s[i].used && s[i].addr + 8 + ByteNeed(size) < s[i + 1].addr
  }

  // Free area i has more than a header behind the pages from the boundary on,
  // and room for another header if its own is not right in front of them.
  predicate RoomForPages(s: seq<Area>, size: int, i: nat) {
    && i + 1 < |s| && !s[i].used
    && var np := BoundaryAbove(s[i].addr);
       np + size + 16 + (if np - 8 == s[i].addr then 0 else 8) < s[i + 1].addr
  }

  // Of the areas with room, k is the narrowest, and the first one as narrow.
  ghost predicate Narrowest(s: seq<Area>, room: nat -> bool, k: nat) {
    && k + 1 < |s| && room(k)
    && forall i: nat :: i + 1 < |s| && room(i) ==>
         && s[k + 1].addr - s[k].addr <= s[i + 1].addr - s[i].addr
         && (i < k ==> s[k + 1].addr - s[k].addr < s[i + 1].addr - s[i].addr)
  }

  // Where kmalloc's block behind the header at a ends, b being the next header:
  // right behind the request, unless less than three headers would be left.
  function BytesEnd(size: int, a: int, b: int): int {
    if b - (a + 8 + ByteNeed(size)) > 16 then a + ByteNeed(size) else b
  }

  function PagesEnd(size: int, a: int, b: int): int {
    if b - (BoundaryAbove(a) + size + 16) > 16 then BoundaryAbove(a) + size else b
  }

  // Block (p, end - p) has been cut out of list s, and t is the list behind it.
  ghost predicate Cut(s: seq<Area>, t: seq<Area>, p: int, end: int) {
    |s| > 0 && |t| > 0 && Live(t) == Live(s) + {(p, end - p)}
  }

  ghost predicate BytesCutFrom(s: seq<Area>, t: seq<Area>, size: int, p: int, k: nat) {
    && Narrowest(s, (i: nat) => RoomForBytes(s, size, i), k)
    && p == s[k].addr + 8 && Cut(s, t, p, BytesEnd(size, s[k].addr, s[k + 1].addr))
  }

  ghost predicate PagesCutFrom(s: seq<Area>, t: seq<Area>, size: int, p: int, k: nat) {
    && Narrowest(s, (i: nat) => RoomForPages(s, size, i), k)
    && p == BoundaryAbove(s[k].addr) && Cut(s, t, p, PagesEnd(size, s[k].addr, s[k + 1].addr))
  }

  // p is what kmalloc(size) returns for list s, and t the list behind it.
  ghost predicate BytesGranted(s: seq<Area>, t: seq<Area>, size: int, p: int) {
    && (p == 0 <==> size == 0 || forall i: nat :: i + 1 < |s| ==> !RoomForBytes(s, size, i))
    && (p == 0 ==> t == s)
    && (p != 0 ==> exists k: nat :: BytesCutFrom(s, t, size, p, k))
  }

  // The same for kpagealloc(n) and size = 4096 * n.
  ghost predicate PagesGranted(s: seq<Area>, t: seq<Area>, size: int, p: int) {
    && (p == 0 <==> size == 0 || forall i: nat :: i + 1 < |s| ==> !RoomForPages(s, size, i))
    && (p == 0 ==> t == s)
    && (p != 0 ==> exists k: nat :: PagesCutFrom(s, t, size, p, k))
  }

  lemma RoundedIsByteNeed(size: Word)
    requires size <= MAX_REQUEST
    ensures Rounded(size) == ByteNeed(size)
  {
    RoundedExactly(size);
    NextMultiple(size + 8, Rounded(size) / 8);
    assert Rounded(size) == Rounded(size) / 8 * 8;
  }

  // There is one multiple of 8 in x .. x + 7.
  lemma NextMultiple(x: int, q: int)
    requires x <= q * 8 < x + 8
    ensures (x + 7) / 8 == q
  {
  }

  lemma BoundaryIsNextPage(a: int)
    ensures BoundaryAbove(a) == NextPage(a)
  {
    assert a == a / 4096 * 4096 + a % 4096;
  }

  lemma FitsBytes(s: seq<Area>, size: Word, i: nat)
    requires i < |s| - 1 && size <= MAX_REQUEST
    ensures Fits(s, Bytes(Rounded(size)), i) <==> RoomForBytes(s, size, i)
  {
    hide Rounded, ByteNeed;
    RoundedIsByteNeed(size);
  }

  lemma FitsPages(s: seq<Area>, size: int, i: nat)
    requires i < |s| - 1
    ensures Fits(s, Pages(size), i) <==> RoomForPages(s, size, i)
  {
    hide NextPage, BoundaryAbove;
    BoundaryIsNextPage(s[i].addr);
  }

  // The best fit is the narrowest area with room.
  lemma BestIsNarrowest(s: seq<Area>, r: Request, room: nat -> bool, k: nat)
    requires k < |s| - 1 && IsBestFit(s, r, |s| - 1, k)
    requires forall i: nat :: i < |s| - 1 ==> (Fits(s, r, i) <==> room(i))
    ensures Narrowest(s, room, k)
  {
    hide Fits;
    forall i: nat | i + 1 < |s| && room(i)
      ensures Size(s, k) <= Size(s, i) && (i < k ==> Size(s, k) < Size(s, i))
    {
      assert Fits(s, r, i);
    }
  }

  // The block that is cut, by its end.
  lemma CutEnd(repaired: bool, s: seq<Area>, k: nat, r: Request, lo: int, hi: int)
    requires Tiled(s, lo, hi) && 0 < lo && k < |s| - 1 && Fits(s, r, k) && Proper(r)
    ensures var t, p := Place(repaired, s, k, r), Payload(s, k, r);
      var end := if TailSplit(s, k, r) then TailAddr(r, s[k].addr) else s[k + 1].addr;
      0 < |t| && Live(t) == Live(s) + {(p, end - p)} && p > 0
  {
    hide Insert, Live, Ascending, Aligned, Start, Usable, Need, TailSplit, TailAddr, Linked;
    PlaceKeepsTiling(repaired, s, k, r, lo, hi);
    FrontedFits(s, k, r, lo, hi);
    PayloadOf(s, k, r, lo, hi);
    var f, i, at := Fronted(s, k, r), PlacedIndex(s, k, r), TailAddr(r, s[k].addr);
    if TailSplit(s, k, r) {
      InsertAt(repaired, f, i, at);
    }
  }

  // kmalloc, as written or repaired, whatever the prev links say.
  lemma MallocExactly(repaired: bool, s: seq<Area>, size: Word, lo: int, hi: int)
    requires Tiled(s, lo, hi) && 0 < lo && size <= MAX_REQUEST
    ensures var (t, p) := Malloc(repaired, s, size); BytesGranted(s, t, size, p)
  {
    hide Live, Fits, RoomForBytes, Ascending, Aligned, Place, Payload, TailSplit, TailAddr, BestIn, Rounded, ByteNeed;
    if size != 0 {
      var r := Bytes(Rounded(size));
      RoundedExactly(size);
      BestInIsBest(s, r, |s| - 1);
      forall i: nat | i < |s| - 1
        ensures Fits(s, r, i) <==> RoomForBytes(s, size, i)
      {
        FitsBytes(s, size, i);
      }
      if BestFit(s, r).Some? {
        var k := BestFit(s, r).value;
        BestIsNarrowest(s, r, (i: nat) => RoomForBytes(s, size, i), k);
        CutEnd(repaired, s, k, r, lo, hi);
        BytesCut(s, size, k);
        assert BytesCutFrom(s, Place(repaired, s, k, r), size, Payload(s, k, r), k);
      }
    }
  }

  lemma BytesCut(s: seq<Area>, size: Word, k: nat)
    requires k < |s| - 1 && size <= MAX_REQUEST
    ensures var r, a, b := Bytes(Rounded(size)), s[k].addr, s[k + 1].addr;
      && Payload(s, k, r) == a + 8
      && BytesEnd(size, a, b) == if TailSplit(s, k, r) then TailAddr(r, a) else b
  {
    hide Rounded, ByteNeed;
    RoundedIsByteNeed(size);
  }

  // kpagealloc, as written or repaired, whatever the prev links say.
  lemma PageMallocExactly(repaired: bool, s: seq<Area>, n: Word, lo: int, hi: int)
    requires Tiled(s, lo, hi) && 0 < lo && n * PAGE_SIZE < 0x1_0000_0000
    ensures var (t, p) := PageMalloc(repaired, s, n); PagesGranted(s, t, 4096 * n, p)
  {
    hide Live, Fits, RoomForPages, Ascending, Aligned, Place, Payload, TailSplit, TailAddr, BestIn, PageMalloc, BoundaryAbove;
    PagesRequest(repaired, s, n);
    if n != 0 {
      var r := Pages(4096 * n);
      BestInIsBest(s, r, |s| - 1);
      forall i: nat | i < |s| - 1
        ensures Fits(s, r, i) <==> RoomForPages(s, 4096 * n, i)
      {
        FitsPages(s, 4096 * n, i);
      }
      if BestFit(s, r).Some? {
        var k := BestFit(s, r).value;
        BestIsNarrowest(s, r, (i: nat) => RoomForPages(s, 4096 * n, i), k);
        CutEnd(repaired, s, k, r, lo, hi);
        PagesCut(s, 4096 * n, k);
        assert PagesCutFrom(s, Place(repaired, s, k, r), 4096 * n, Payload(s, k, r), k);
      }
    }
  }

  lemma PagesCut(s: seq<Area>, size: int, k: nat)
    requires k < |s| - 1
    ensures var r, a, b := Pages(size), s[k].addr, s[k + 1].addr;
      && Payload(s, k, r) == BoundaryAbove(a)
      && PagesEnd(size, a, b) == if TailSplit(s, k, r) then TailAddr(r, a) else b
  {
    hide NextPage, BoundaryAbove;
    BoundaryIsNextPage(s[k].addr);
  }
}
