// Properties of single heap operations on the list of areas.
module AreaTheorems {
  import opened Words
  import opened Areas

  // ---------- Best fit ----------

  // The search finds the one smallest fitting area of lowest address, and
  // nothing exactly when no free area is large enough.
  lemma {:induction false} BestInIsBest(s: seq<Area>, r: Request, n: nat)
    requires n < |s|
    ensures BestIn(s, r, n).None? ==> forall i: nat :: i < n ==> !Fits(s, r, i)
    ensures BestIn(s, r, n).Some? ==> IsBestFit(s, r, n, BestIn(s, r, n).value)
  {
    if n > 0 {
      BestInIsBest(s, r, n - 1);
      hide Fits, Size;
    }
  }

  lemma BestFitExact(s: seq<Area>, r: Request, k: nat)
    requires |s| > 0
    ensures BestFit(s, r) == Some(k) <==> IsBestFit(s, r, |s| - 1, k)
    ensures BestFit(s, r) == None <==> forall i: nat :: i < |s| - 1 ==> !Fits(s, r, i)
  {
    BestInIsBest(s, r, |s| - 1);
    hide BestIn, Fits, Size;
  }

  // ---------- Insert ----------

  lemma InsertTiled(link: bool, s: seq<Area>, k: nat, at: int, lo: int, hi: int)
    requires Tiled(s, lo, hi) && k < |s| - 1
    requires s[k].addr + HEADER <= at <= s[k + 1].addr - HEADER && at % 8 == 0
    ensures Tiled(Insert(link, s, k, at), lo, hi)
  {
    InsertAt(link, s, k, at);
    hide Insert;
  }

  // Which header each index of the result comes from.
  lemma InsertAt(link: bool, s: seq<Area>, k: nat, at: int)
    requires k < |s| - 1
    ensures var t := Insert(link, s, k, at);
      && (forall i :: 0 <= i <= k ==> t[i] == s[i])
      && t[k + 1] == Area(at, s[k].addr, false)
      && t[k + 2] == (if link then s[k + 1].(prev := at) else s[k + 1])
      && (forall i :: k + 2 < i < |t| ==> t[i] == s[i - 1])
  {
  }

  // Without the repair the inserted header leaves a wrong prev behind.
  lemma InsertLinked(link: bool, s: seq<Area>, k: nat, at: int)
    requires Linked(s) && k < |s| - 1 && at != s[k].addr
    ensures Linked(Insert(link, s, k, at)) <==> link
  {
    var t := Insert(link, s, k, at);
    InsertAt(link, s, k, at);
    if !link {
      assert t[k + 2].prev == s[k].addr;
    }
  }

  lemma InsertLive(link: bool, s: seq<Area>, k: nat, at: int)
    requires k < |s| - 1 && !s[k].used
    ensures Live(Insert(link, s, k, at)) == Live(s)
  {
    var t := Insert(link, s, k, at);
    InsertAt(link, s, k, at);
    hide Insert;
    forall x | x in Live(s)
      ensures x in Live(t)
    {
      var i :| 0 <= i < |s| - 1 && s[i].used && x == Extent(s, i);
      var i' := if i < k then i else i + 1;
      assert t[i'].used && x == Extent(t, i');
    }
    forall x | x in Live(t)
      ensures x in Live(s)
    {
      var i :| 0 <= i < |t| - 1 && t[i].used && x == Extent(t, i);
      assert i != k && i != k + 1;
      var i' := if i < k then i else i - 1;
      assert s[i'].used && x == Extent(s, i');
    }
  }

  lemma MarkLive(s: seq<Area>, k: nat)
    requires k < |s| - 1 && !s[k].used
    ensures Live(Mark(s, k)) == Live(s) + {Extent(s, k)}
  {
    var t := Mark(s, k);
    forall x | x in Live(s) + {Extent(s, k)}
      ensures x in Live(t)
    {
      var i :| 0 <= i < |s| - 1 && (s[i].used || i == k) && x == Extent(s, i);
      assert t[i].used && x == Extent(t, i);
    }
    forall x | x in Live(t)
      ensures x in Live(s) + {Extent(s, k)}
    {
      var i :| 0 <= i < |t| - 1 && t[i].used && x == Extent(t, i);
      assert x == Extent(s, i) && (i == k || s[i].used);
    }
  }

  // ---------- kmalloc and kpagealloc ----------

  // What a request may ask: positive multiples of 8, or of the page size.
  predicate Proper(r: Request) {
    match r
    case Bytes(size) => size >= 2 * HEADER && size % 8 == 0
    case Pages(size) => size > 0 && size % PAGE_SIZE == 0
  }

  lemma Multiples(q: int)
    ensures (q * PAGE_SIZE) % PAGE_SIZE == 0
    ensures (q * 8) % 8 == 0
  {
  }

  lemma NextPageFacts(a: int)
    requires a % 8 == 0
    ensures a < NextPage(a) <= a + PAGE_SIZE
    ensures NextPage(a) % PAGE_SIZE == 0 && NextPage(a) % 8 == 0
    ensures a + HEADER <= NextPage(a)
    ensures NextPage(a) - HEADER != a ==> a + HEADER <= NextPage(a) - HEADER
  {
    var p, w := a / PAGE_SIZE, a / 8;
    var q, v := p + 1, 512 * (p + 1);
    assert NextPage(a) == q * PAGE_SIZE == v * 8;
    Multiples(q);
    Multiples(v);
    BelowMultiple(w, v);
  }

  // A multiple of 8 below another one is at least 8 below it.
  lemma BelowMultiple(w: int, v: int)
    ensures w * 8 < v * 8 ==> w * 8 + 8 <= v * 8
    ensures w * 8 < v * 8 - 8 ==> w * 8 + 8 <= v * 8 - 8
  {
  }

  lemma Sum8(x: int, y: int)
    requires x % 8 == 0 && y % 8 == 0
    ensures (x + y) % 8 == 0 && (x - y) % 8 == 0
  {
  }

  lemma PageMultiple(x: int)
    requires x % PAGE_SIZE == 0
    ensures x % 8 == 0
  {
    assert x == 512 * (x / PAGE_SIZE) * 8;
    Multiples(512 * (x / PAGE_SIZE));
  }

  lemma ProperUsable(r: Request)
    requires Proper(r)
    ensures Usable(r) >= HEADER && Usable(r) % 8 == 0
  {
    match r
    case Bytes(size) => Sum8(size, HEADER);
    case Pages(size) => PageMultiple(size);
  }

  // The arithmetic of the cut, in terms of the area's two ends a and b.
  lemma CutArithmetic(r: Request, a: int, b: int)
    requires a % 8 == 0 && b % 8 == 0 && Proper(r) && b - a - HEADER > Need(r, a)
    ensures Start(r, a) % 8 == 0 && TailAddr(r, a) % 8 == 0
    ensures Start(r, a) == a || a + HEADER <= Start(r, a)
    ensures Start(r, a) + 2 * HEADER <= TailAddr(r, a) <= b - 2 * HEADER
  {
    NextPageFacts(a);
    ProperUsable(r);
    var t := Start(r, a) + HEADER + Usable(r);
    assert t + HEADER < b;
    hide NextPage, Usable;
    Sum8(NextPage(a), HEADER);
    Sum8(Start(r, a), HEADER);
    Sum8(Start(r, a) + HEADER, Usable(r));
    Sum8(b, t);
  }

  lemma InsertFree(s: seq<Area>, k: nat, at: int, lo: int, hi: int)
    requires Tiled(s, lo, hi) && k < |s| - 1 && !s[k].used
    requires s[k].addr + HEADER <= at <= s[k + 1].addr - HEADER && at % 8 == 0
    ensures var t := Insert(true, s, k, at);
      && Tiled(t, lo, hi) && Live(t) == Live(s) && (Linked(s) ==> Linked(t))
      && !t[k + 1].used && t[k + 1].addr == at && t[k + 2].addr == s[k + 1].addr
  {
    InsertTiled(true, s, k, at, lo, hi);
    InsertLive(true, s, k, at);
    InsertAt(true, s, k, at);
    if Linked(s) {
      InsertLinked(true, s, k, at);
    }
  }

  // The header the allocation starts from lies in front of its payload, and
  // what follows it has room for the request.
  lemma FrontedFits(s: seq<Area>, k: nat, r: Request, lo: int, hi: int)
    requires Tiled(s, lo, hi)
    requires k < |s| - 1 && Fits(s, r, k) && Proper(r)
    ensures var f, i := Fronted(s, k, r), PlacedIndex(s, k, r);
      && Tiled(f, lo, hi) && Live(f) == Live(s) && !f[i].used
      && f[i].addr + HEADER == Payload(s, k, r)
      && f[i + 1].addr == s[k + 1].addr
      && (Linked(s) ==> Linked(f))
  {
    var a := s[k].addr;
    CutArithmetic(r, a, s[k + 1].addr);
    hide Start, Insert, Live, Ascending, Aligned, Linked, TailAddr;
    if Start(r, a) != a {
      InsertFree(s, k, Start(r, a), lo, hi);
    }
  }

  // Where the allocated area ends, and that the request fits in it.
  lemma TailRoom(s: seq<Area>, k: nat, r: Request, lo: int, hi: int)
    requires Tiled(s, lo, hi)
    requires k < |s| - 1 && Fits(s, r, k) && Proper(r)
    ensures var f, i, at := Fronted(s, k, r), PlacedIndex(s, k, r), TailAddr(r, s[k].addr);
      && f[i].addr + HEADER <= at <= f[i + 1].addr - 2 * HEADER && at % 8 == 0
      && s[k].addr + HEADER <= Payload(s, k, r)
  {
    FrontedFits(s, k, r, lo, hi);
    CutArithmetic(r, s[k].addr, s[k + 1].addr);
    hide Fronted, Insert, Start, Usable;
  }

  // As written or repaired: an allocation cuts one free area, keeps the tiling
  // and every live extent, and adds one live extent that holds the request.
  // No prev link has to be right for this.
  lemma PlaceKeepsTiling(repaired: bool, s: seq<Area>, k: nat, r: Request, lo: int, hi: int)
    requires Tiled(s, lo, hi)
    requires k < |s| - 1 && Fits(s, r, k) && Proper(r)
    ensures var t, i := Place(repaired, s, k, r), PlacedIndex(s, k, r);
      && Tiled(t, lo, hi)
      && Live(t) == Live(s) + {(Payload(s, k, r), Size(t, i))}
      && t[i].used && t[i].addr + HEADER == Payload(s, k, r)
      && Size(t, i) >= Usable(r)
      && s[k].addr + HEADER <= Payload(s, k, r)
      && Payload(s, k, r) + Size(t, i) <= s[k + 1].addr
  {
    hide Insert, Live, Ascending, Aligned, Start, Usable, Need, Fronted, PlacedIndex;
    FrontedFits(s, k, r, lo, hi);
    TailRoom(s, k, r, lo, hi);
    var f, i, at := Fronted(s, k, r), PlacedIndex(s, k, r), TailAddr(r, s[k].addr);
    if TailSplit(s, k, r) {
      TailCut(repaired, f, i, at, lo, hi);
    } else {
      MarkedKeepsTiling(f, i, lo, hi);
    }
  }

  lemma TailCut(link: bool, f: seq<Area>, i: nat, at: int, lo: int, hi: int)
    requires Tiled(f, lo, hi) && i < |f| - 1 && !f[i].used
    requires f[i].addr + HEADER <= at <= f[i + 1].addr - HEADER && at % 8 == 0
    ensures var t := Mark(Insert(link, f, i, at), i);
      && Tiled(t, lo, hi)
      && Live(t) == Live(f) + {(f[i].addr + HEADER, Size(t, i))}
      && t[i].used && t[i].addr == f[i].addr && t[i + 1].addr == at
  {
    var u := Insert(link, f, i, at);
    InsertTiled(link, f, i, at, lo, hi);
    InsertLive(link, f, i, at);
    InsertAt(link, f, i, at);
    hide Insert, Live, Ascending, Aligned;
    MarkedKeepsTiling(u, i, lo, hi);
  }

  lemma MarkedKeepsTiling(s: seq<Area>, k: nat, lo: int, hi: int)
    requires Tiled(s, lo, hi) && k < |s| - 1 && !s[k].used
    ensures Tiled(Mark(s, k), lo, hi)
    ensures Live(Mark(s, k)) == Live(s) + {Extent(s, k)}
    ensures Size(Mark(s, k), k) == Size(s, k)
  {
    MarkLive(s, k);
  }

  ghost predicate SameShape(s: seq<Area>, t: seq<Area>) {
    |s| == |t| && forall i :: 0 <= i < |s| ==> s[i].addr == t[i].addr && s[i].used == t[i].used
  }

  lemma InsertSameShape(link1: bool, link2: bool, s: seq<Area>, t: seq<Area>, k: nat, at: int)
    requires SameShape(s, t) && k < |s| - 1
    ensures SameShape(Insert(link1, s, k, at), Insert(link2, t, k, at))
  {
    InsertAt(link1, s, k, at);
    InsertAt(link2, t, k, at);
  }

  // Where the headers and the used flags end up does not depend on prev links.
  lemma PlaceIgnoresPrev(rep1: bool, rep2: bool, s: seq<Area>, t: seq<Area>, k: nat, r: Request)
    requires SameShape(s, t) && k < |s| - 1
    ensures SameShape(Place(rep1, s, k, r), Place(rep2, t, k, r))
  {
    var a := s[k].addr;
    var f, g, i := Fronted(s, k, r), Fronted(t, k, r), PlacedIndex(s, k, r);
    hide Start, Insert;
    if Start(r, a) != a {
      InsertSameShape(true, true, s, t, k, Start(r, a));
    }
    assert Size(s, k) == Size(t, k);
    if TailSplit(s, k, r) {
      InsertSameShape(rep1, rep2, f, g, i, TailAddr(r, a));
    }
  }

  // From a well linked list the cut stays well linked exactly when the tail
  // split is repaired or does not happen (R1).
  lemma PlaceLinkedExactly(repaired: bool, s: seq<Area>, k: nat, r: Request, lo: int, hi: int)
    requires Tiled(s, lo, hi) && Linked(s)
    requires k < |s| - 1 && Fits(s, r, k) && Proper(r)
    ensures Linked(Place(repaired, s, k, r)) <==> repaired || !TailSplit(s, k, r)
  {
    hide Start, Insert, Live, Ascending, Aligned, Fits, TailAddr, Fronted, PlacedIndex, TailSplit, Mark;
    FrontedFits(s, k, r, lo, hi);
    TailRoom(s, k, r, lo, hi);
    var f, i, at := Fronted(s, k, r), PlacedIndex(s, k, r), TailAddr(r, s[k].addr);
    if TailSplit(s, k, r) {
      InsertLinked(repaired, f, i, at);
      MarkLinked(Insert(repaired, f, i, at), i);
    } else {
      MarkLinked(f, i);
    }
  }

  lemma MarkLinked(s: seq<Area>, k: nat)
    requires k < |s|
    ensures Linked(Mark(s, k)) <==> Linked(s)
  {
    var t := Mark(s, k);
    if Linked(t) {
      forall a, b | 0 <= a && b == a + 1 < |s|
        ensures s[b].prev == s[a].addr
      {
        assert t[b].prev == t[a].addr;
      }
    }
  }

  lemma PlaceCoalesced(repaired: bool, s: seq<Area>, k: nat, r: Request)
    requires Coalesced(s) && k < |s| - 1 && !s[k].used
    ensures Coalesced(Place(repaired, s, k, r))
  {
    var a := s[k].addr;
    var f, i := Fronted(s, k, r), PlacedIndex(s, k, r);
    if Start(r, a) != a {
      InsertAt(true, s, k, Start(r, a));
    }
    if TailSplit(s, k, r) {
      InsertAt(repaired, f, i, TailAddr(r, a));
    }
    hide Insert, Start, TailAddr, TailSplit;
  }

  // ---------- kfree ----------

  lemma SpliceAt(s: seq<Area>, j: nat, i: nat, prev: int)
    requires j < i < |s|
    ensures var t := Splice(s, j, i, prev);
      && |t| == |s| - (i - j) + 1
      && (forall a :: 0 <= a <= j ==> t[a] == s[a])
      && t[j + 1] == s[i].(prev := prev)
      && (forall a :: j + 1 < a < |t| ==> t[a] == s[a + (i - j) - 1])
  {
  }

  lemma SpliceTiled(s: seq<Area>, j: nat, i: nat, prev: int, lo: int, hi: int)
    requires Tiled(s, lo, hi) && j < i < |s|
    ensures Tiled(Splice(s, j, i, prev), lo, hi)
  {
    SpliceAt(s, j, i, prev);
    hide Splice;
  }

  // Splicing behind a free header loses exactly the live areas in between.
  lemma SpliceLive(s: seq<Area>, j: nat, i: nat, prev: int)
    requires j < i < |s| && !s[j].used
    ensures Live(Splice(s, j, i, prev)) == LiveIn(s, 0, j) + LiveIn(s, i, |s| - 1)
  {
    var t := Splice(s, j, i, prev);
    var d := i - j - 1;
    SpliceAt(s, j, i, prev);
    hide Splice;
    forall x | x in Live(t)
      ensures x in LiveIn(s, 0, j) + LiveIn(s, i, |s| - 1)
    {
      var a :| 0 <= a < |t| - 1 && t[a].used && x == Extent(t, a);
      if a <= j {
        assert s[a].used && x == Extent(s, a);
      } else {
        assert s[a + d].used && x == Extent(s, a + d);
      }
    }
    forall x | x in LiveIn(s, 0, j) + LiveIn(s, i, |s| - 1)
      ensures x in Live(t)
    {
      var a :| 0 <= a < |s| - 1 && (a < j || i <= a) && s[a].used && x == Extent(s, a);
      var a' := if a < j then a else a - d;
      assert t[a'].used && x == Extent(t, a');
    }
  }

  lemma DistinctExtents(s: seq<Area>, i: nat, k: nat)
    requires Ascending(s) && i < |s| - 1 && k < |s| - 1 && i != k
    ensures Extent(s, i) != Extent(s, k)
  {
    if i < k {
      assert s[i].addr + HEADER <= s[k].addr;
    } else {
      assert s[k].addr + HEADER <= s[i].addr;
    }
  }

  lemma UnmarkExtents(s: seq<Area>, i: nat)
    requires Ascending(s) && i < |s| - 1
    ensures |Unmark(s, i)| == |s|
    ensures forall c: nat :: c < |s| - 1 ==> Extent(Unmark(s, i), c) == Extent(s, c)
    ensures forall c: nat :: c < |s| - 1 && c != i ==> Extent(s, c) != Extent(s, i)
  {
    forall c: nat | c < |s| - 1 && c != i
      ensures Extent(s, c) != Extent(s, i)
    {
      DistinctExtents(s, c, i);
    }
  }

  lemma UnmarkLive(s: seq<Area>, i: nat)
    requires Ascending(s) && i < |s| - 1 && s[i].used
    ensures Live(Unmark(s, i)) == Live(s) - {Extent(s, i)}
  {
    hide Extent, Ascending;
    UnmarkExtents(s, i);
    var f := Unmark(s, i);
    var n := |s| - 1;
    forall x | x in Live(s) - {Extent(s, i)}
      ensures x in Live(f)
    {
      var c :| 0 <= c < n && s[c].used && x == Extent(s, c);
      assert f[c].used && x == Extent(f, c);
    }
    forall x | x in Live(f)
      ensures x in Live(s) - {Extent(s, i)}
    {
      var c :| 0 <= c < n && f[c].used && x == Extent(f, c);
      assert s[c].used && x == Extent(s, c);
    }
  }

  lemma LiveInSplit(s: seq<Area>, a: nat, b: nat, c: nat)
    requires a <= b <= c < |s|
    ensures LiveIn(s, a, c) == LiveIn(s, a, b) + LiveIn(s, b, c)
  {
  }

  lemma MergeTiled(repaired: bool, f: seq<Area>, i: nat, j: Option<nat>, lo: int, hi: int)
    requires Tiled(f, lo, hi) && i < |f| - 1 && !TakesSentinel(repaired, f, i) && StoredPrev(f, i, j)
    ensures Tiled(Merge(repaired, f, i, j), lo, hi)
  {
    hide Ascending, Aligned, Splice;
    if j.Some? && i + 2 < |f| {
      SpliceTiled(f, j.value, i + 2, f[j.value].addr, lo, hi);
    }
    if j.Some? {
      SpliceTiled(f, j.value, i + 1, f[j.value].addr, lo, hi);
    }
    if i + 2 < |f| {
      SpliceTiled(f, i, i + 2, if repaired then f[i].addr else f[i + 2].prev, lo, hi);
    }
  }

  // Whatever the stored prev names, the forward chain stays a tiling.
  lemma FreeTiled(repaired: bool, s: seq<Area>, i: nat, j: Option<nat>, lo: int, hi: int)
    requires Tiled(s, lo, hi) && i < |s| - 1 && s[i].used
    requires !TakesSentinel(repaired, s, i) && StoredPrev(s, i, j)
    ensures Tiled(Free(repaired, s, i, j), lo, hi)
  {
    MergeTiled(repaired, Unmark(s, i), i, j, lo, hi);
  }

  // A stale prev that names a free header, with a live area between them.
  predicate SkipsLive(s: seq<Area>, i: nat, j: Option<nat>)
    requires i < |s|
  {
    j.Some? && j.value < i && !s[j.value].used && exists k :: j.value < k < i && s[k].used
  }

  // kfree gives up exactly the freed extent and keeps every other one, unless
  // a stale prev skips a live area: then, and only then, one is lost.
  lemma FreeLiveExactly(repaired: bool, s: seq<Area>, i: nat, j: Option<nat>, lo: int, hi: int)
    requires Tiled(s, lo, hi) && i < |s| - 1 && s[i].used
    requires !TakesSentinel(repaired, s, i) && StoredPrev(s, i, j)
    ensures Live(Free(repaired, s, i, j)) == Live(s) - {Extent(s, i)} <==> !SkipsLive(s, i, j)
  {
    var f := Unmark(s, i);
    UnmarkLive(s, i);
    if j.Some? && !s[j.value].used {
      RootMergeExactly(repaired, s, i, j.value, lo, hi);
    } else if i + 1 < |s| - 1 && !s[i + 1].used {
      hide Live;
      TailMergeLive(f, i, if repaired then s[i].addr else s[i + 2].prev);
    }
  }

  lemma RootMergeExactly(repaired: bool, s: seq<Area>, i: nat, j: nat, lo: int, hi: int)
    requires Tiled(s, lo, hi) && i < |s| - 1 && s[i].used
    requires !TakesSentinel(repaired, s, i) && StoredPrev(s, i, Some(j)) && !s[j].used
    ensures Live(Free(repaired, s, i, Some(j))) == Live(Unmark(s, i)) <==>
            !SkipsLive(s, i, Some(j))
  {
    var f := Unmark(s, i);
    var e := if i + 1 < |s| - 1 && !s[i + 1].used then i + 2 else i + 1;
    assert Free(repaired, s, i, Some(j)) == Splice(f, j, e, s[j].addr);
    assert Tiled(f, lo, hi);
    SkipsLiveSame(s, f, i, Some(j));
    hide Live, LiveIn, Splice, Free, SkipsLive, Ascending, Aligned;
    SpliceLive(f, j, e, s[j].addr);
    RootMergeLive(f, i, j, e, lo, hi);
  }

  lemma SkipsLiveSame(s: seq<Area>, f: seq<Area>, i: nat, j: Option<nat>)
    requires |f| == |s| && i < |s| && forall k :: 0 <= k < i ==> f[k] == s[k]
    ensures SkipsLive(s, i, j) <==> SkipsLive(f, i, j)
  {
  }

  lemma TailMergeLive(f: seq<Area>, i: nat, prev: int)
    requires i + 2 < |f| && !f[i].used && !f[i + 1].used
    ensures Live(Splice(f, i, i + 2, prev)) == Live(f)
  {
    SpliceLive(f, i, i + 2, prev);
    LiveInSplit(f, 0, i, |f| - 1);
    LiveInSplit(f, i, i + 2, |f| - 1);
    assert LiveIn(f, i, i + 2) == {};
  }

  lemma RootMergeLive(f: seq<Area>, i: nat, j: nat, e: nat, lo: int, hi: int)
    requires Tiled(f, lo, hi) && j < i < e < |f|
    requires !f[j].used && forall k :: i <= k < e ==> !f[k].used
    ensures LiveIn(f, 0, j) + LiveIn(f, e, |f| - 1) == Live(f) <==> !SkipsLive(f, i, Some(j))
  {
    LiveInSplit(f, 0, j, |f| - 1);
    LiveInSplit(f, j, e, |f| - 1);
    hide Extent;
    if k :| j < k < i && f[k].used {
      assert Extent(f, k) in LiveIn(f, j, e);
      forall a: nat | a < |f| - 1 && a != k
        ensures Extent(f, a) != Extent(f, k)
      {
        DistinctExtents(f, a, k);
      }
      assert Extent(f, k) !in LiveIn(f, 0, j) + LiveIn(f, e, |f| - 1);
    } else {
      assert LiveIn(f, j, e) == {};
    }
  }

  lemma PredIsStored(s: seq<Area>, i: nat, lo: int, hi: int)
    requires Tiled(s, lo, hi) && Linked(s) && i < |s| && lo > 0
    ensures StoredPrev(s, i, Pred(i)) && !SkipsLive(s, i, Pred(i))
    ensures forall j :: StoredPrev(s, i, j) ==> j == Pred(i)
  {
    if i > 0 {
      assert s[i].prev == s[i - 1].addr && s[0].addr <= s[i - 1].addr;
    }
  }

  lemma SpliceLinked(s: seq<Area>, j: nat, i: nat, prev: int)
    requires Linked(s) && j < i < |s|
    ensures Linked(Splice(s, j, i, prev)) <==> prev == s[j].addr
  {
    SpliceAt(s, j, i, prev);
    var t := Splice(s, j, i, prev);
    if Linked(t) {
      assert t[j + 1].prev == t[j].addr;
    }
  }

  // From a well linked list, kfree as written breaks prev exactly when it
  // merges towards the tail only (R2).
  lemma FreeLinkedExactly(repaired: bool, s: seq<Area>, i: nat, lo: int, hi: int)
    requires Tiled(s, lo, hi) && Linked(s) && lo > 0
    requires i < |s| - 1 && s[i].used && !TakesSentinel(repaired, s, i)
    requires StoredPrev(s, i, Pred(i))
    ensures Linked(Free(repaired, s, i, Pred(i))) <==>
            repaired || s[i + 1].used || (i > 0 && !s[i - 1].used)
  {
    var f := Unmark(s, i);
    assert Linked(f);
    if i > 0 && i + 2 < |s| {
      SpliceLinked(f, i - 1, i + 2, s[i - 1].addr);
    }
    if i > 0 {
      SpliceLinked(f, i - 1, i + 1, s[i - 1].addr);
    }
    if i + 2 < |s| {
      SpliceLinked(f, i, i + 2, if repaired then s[i].addr else s[i + 2].prev);
      assert s[i + 2].prev == s[i + 1].addr != s[i].addr;
    }
  }

  lemma FreeCoalesced(repaired: bool, s: seq<Area>, i: nat)
    requires Coalesced(s) && i < |s| - 1 && !TakesSentinel(repaired, s, i) && StoredPrev(s, i, Pred(i))
    ensures Coalesced(Free(repaired, s, i, Pred(i)))
  {
  }

  lemma SpliceUndoesInsert(s: seq<Area>, k: nat, at: int)
    requires Linked(s) && k < |s| - 1
    ensures Splice(Insert(true, s, k, at), k, k + 2, s[k].addr) == s
  {
    assert s[k + 1].prev == s[k].addr;
  }

  lemma SpliceUndoesBothInserts(s: seq<Area>, k: nat, at1: int, at2: int)
    requires Linked(s) && k < |s| - 1
    ensures Splice(Insert(true, Insert(true, s, k, at1), k + 1, at2), k, k + 3, s[k].addr) == s
  {
    assert s[k + 1].prev == s[k].addr;
  }

  // Allocating and freeing the result is the identity, prev links included.
  lemma PlaceThenFree(s: seq<Area>, k: nat, r: Request, lo: int, hi: int)
    requires Tiled(s, lo, hi) && Linked(s) && Coalesced(s) && lo > 0
    requires k < |s| - 1 && Fits(s, r, k) && Proper(r)
    ensures var t, i := Place(true, s, k, r), PlacedIndex(s, k, r);
      StoredPrev(t, i, Pred(i)) && Free(true, t, i, Pred(i)) == s
  {
    PlaceKeepsTiling(true, s, k, r, lo, hi);
    PlaceLinkedExactly(true, s, k, r, lo, hi);
    FrontedFits(s, k, r, lo, hi);
    var t, i := Place(true, s, k, r), PlacedIndex(s, k, r);
    PredIsStored(t, i, lo, hi);
    FreeUndoesPlace(s, k, r);
  }

  lemma FreeUndoesPlace(s: seq<Area>, k: nat, r: Request)
    requires Linked(s) && Coalesced(s) && k < |s| - 1 && !s[k].used
    requires var t, i := Place(true, s, k, r), PlacedIndex(s, k, r); StoredPrev(t, i, Pred(i))
    ensures var t, i := Place(true, s, k, r), PlacedIndex(s, k, r); Free(true, t, i, Pred(i)) == s
  {
    var a := s[k].addr;
    var f, i := Fronted(s, k, r), PlacedIndex(s, k, r);
    var at1, at2 := Start(r, a), TailAddr(r, a);
    var u := if TailSplit(s, k, r) then Insert(true, f, i, at2) else f;
    if at1 != a {
      InsertAt(true, s, k, at1);
    }
    if TailSplit(s, k, r) {
      InsertAt(true, f, i, at2);
    }
    hide Insert, Start, TailAddr, TailSplit, Splice;
    FreeOfMarked(u, i);
    if at1 != a && TailSplit(s, k, r) {
      SpliceUndoesBothInserts(s, k, at1, at2);
    } else if at1 != a {
      SpliceUndoesInsert(s, k, at1);
    } else if TailSplit(s, k, r) {
      SpliceUndoesInsert(s, k, at2);
    }
  }

  lemma FreeOfMarked(u: seq<Area>, i: nat)
    requires i < |u| - 1 && !u[i].used && StoredPrev(Mark(u, i), i, Pred(i))
    ensures var n := |u| - 1;
      var root, tail := i > 0 && !u[i - 1].used, i + 1 < n && !u[i + 1].used;
      Free(true, Mark(u, i), i, Pred(i)) ==
        if root && tail then Splice(u, i - 1, i + 2, u[i - 1].addr)
        else if tail then Splice(u, i, i + 2, u[i].addr)
        else if root then Splice(u, i - 1, i + 1, u[i - 1].addr)
        else u
  {
    var t := Mark(u, i);
    assert Unmark(t, i) == u;
    hide Splice, Mark;
  }

  // A coalesced heap without live areas is the single initial free area.
  lemma NothingLive(s: seq<Area>, lo: int, hi: int)
    requires Tiled(s, lo, hi) && Linked(s) && Coalesced(s) && Live(s) == {}
    ensures s == Initial(lo, hi)
  {
    forall i: nat | i < |s| - 1
      ensures !s[i].used
    {
      assert Extent(s, i) !in Live(s);
    }
    assert |s| == 2 && s[1].prev == s[0].addr;
  }

  // ---------- Stray prev links ----------

  // All prev links stay behind their headers, stray or not.
  lemma LinkedBackward(s: seq<Area>, lo: int, hi: int)
    requires Tiled(s, lo, hi) && Linked(s)
    ensures Backward(s, lo)
  {
    forall i | 0 < i < |s|
      ensures lo <= s[i].prev < s[i].addr
    {
      assert s[i].prev == s[i - 1].addr && s[0].addr <= s[i - 1].addr;
    }
  }

  lemma InsertBackward(link: bool, s: seq<Area>, k: nat, at: int, lo: int)
    requires Backward(s, lo) && k < |s| - 1 && lo <= s[k].addr < at < s[k + 1].addr
    ensures Backward(Insert(link, s, k, at), lo)
  {
    InsertAt(link, s, k, at);
    hide Insert;
  }

  lemma PlaceBackward(repaired: bool, s: seq<Area>, k: nat, r: Request, lo: int, hi: int)
    requires Tiled(s, lo, hi) && Backward(s, lo) && k < |s| - 1 && Fits(s, r, k) && Proper(r)
    ensures Backward(Place(repaired, s, k, r), lo)
  {
    hide Insert, Live, Aligned, Linked, Fits, TailSplit, TailAddr;
    FrontedFits(s, k, r, lo, hi);
    TailRoom(s, k, r, lo, hi);
    assert s[0].addr <= s[k].addr;
    var f, i, at := Fronted(s, k, r), PlacedIndex(s, k, r), TailAddr(r, s[k].addr);
    if Start(r, s[k].addr) != s[k].addr {
      InsertAt(true, s, k, Start(r, s[k].addr));
      InsertBackward(true, s, k, Start(r, s[k].addr), lo);
    }
    if TailSplit(s, k, r) {
      InsertBackward(repaired, f, i, at, lo);
    }
  }

  lemma SpliceBackward(s: seq<Area>, j: nat, i: nat, prev: int, lo: int)
    requires Backward(s, lo) && j < i < |s| && (prev == 0 || lo <= prev < s[i].addr)
    ensures Backward(Splice(s, j, i, prev), lo)
  {
    SpliceAt(s, j, i, prev);
    hide Splice;
  }

  lemma FreeBackward(repaired: bool, s: seq<Area>, i: nat, j: Option<nat>, lo: int, hi: int)
    requires Tiled(s, lo, hi) && Backward(s, lo) && i < |s| - 1
    requires !TakesSentinel(repaired, s, i) && StoredPrev(s, i, j)
    ensures Backward(Free(repaired, s, i, j), lo)
  {
    hide Splice, Aligned;
    var f := Unmark(s, i);
    assert Backward(f, lo) && Ascending(f) && f[0].addr == lo;
    if j.Some? {
      SpliceBackward(f, j.value, i + 1, f[j.value].addr, lo);
      if i + 2 < |f| {
        SpliceBackward(f, j.value, i + 2, f[j.value].addr, lo);
      }
    }
    if i + 2 < |f| {
      SpliceBackward(f, i, i + 2, if repaired then f[i].addr else f[i + 2].prev, lo);
    }
  }

  lemma StrayBackward(repaired: bool, s: seq<Area>, i: nat, bit: bool, lo: int, hi: int)
    requires Tiled(s, lo, hi) && Backward(s, lo) && i < |s| - 1 && !TakesSentinel(repaired, s, i)
    ensures Backward(MergeStray(repaired, Unmark(s, i), i, bit), lo)
  {
    hide Splice, Aligned;
    var f := Unmark(s, i);
    assert Backward(f, lo) && Ascending(f) && f[0].addr == lo;
    if i + 2 < |f| {
      SpliceBackward(f, i, i + 2, if repaired then f[i].addr else f[i + 2].prev, lo);
    }
  }

  lemma StrayTiled(repaired: bool, f: seq<Area>, i: nat, bit: bool, lo: int, hi: int)
    requires Tiled(f, lo, hi) && i < |f| - 1 && !TakesSentinel(repaired, f, i)
    ensures Tiled(MergeStray(repaired, f, i, bit), lo, hi)
  {
    hide Splice;
    if i + 2 < |f| {
      SpliceTiled(f, i, i + 2, if repaired then f[i].addr else f[i + 2].prev, lo, hi);
    }
  }

  // Live areas do not depend on prev links.
  lemma PrevLive(f: seq<Area>, d: nat, prev: int)
    requires 0 < |f| && d < |f|
    ensures Live(f[d := f[d].(prev := prev)]) == Live(f)
  {
    var t := f[d := f[d].(prev := prev)];
    forall x | x in Live(f)
      ensures x in Live(t)
    {
      var c :| 0 <= c < |f| - 1 && f[c].used && x == Extent(f, c);
      assert t[c].used && x == Extent(t, c);
    }
    forall x | x in Live(t)
      ensures x in Live(f)
    {
      var c :| 0 <= c < |f| - 1 && t[c].used && x == Extent(t, c);
      assert f[c].used && x == Extent(f, c);
    }
  }

  // A stray prev costs no live area, whatever the word it names holds.
  lemma StrayLive(repaired: bool, f: seq<Area>, i: nat, bit: bool)
    requires i < |f| - 1 && !TakesSentinel(repaired, f, i) && !f[i].used
    ensures Live(MergeStray(repaired, f, i, bit)) == Live(f)
  {
    hide Live, Splice;
    PrevLive(f, RootTarget(f, i), f[i].prev);
    if FreeBehind(f, i) {
      TailMergeLive(f, i, if repaired then f[i].addr else f[i + 2].prev);
    }
  }
}
