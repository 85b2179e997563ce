// Whole runs of the kernel heap: sequences of kmalloc, kcalloc, krealloc,
// kpagealloc and kfree on the list of areas.
module HeapRuns {
  import opened Words
  import opened Areas
  import opened AreaTheorems

  // The largest request whose rounding does not wrap.
  const MAX_REQUEST: int := 0xFFFF_FFF0

  // kmalloc's size = div_ceil(size + sizeof(struct heap_area), 8) * 8.
  function Rounded(size: Word): Word {
    (DivCeil(Add32(size, HEADER), 8) * 8) % 0x1_0000_0000
  }

  // Up to MAX_REQUEST the rounded size holds the header and the request, and
  // is less than 8 bytes too large. Above it never does.
  lemma RoundedExactly(size: Word)
    ensures Rounded(size) % 8 == 0
    ensures size <= MAX_REQUEST <==> size + HEADER <= Rounded(size)
    ensures size <= MAX_REQUEST ==> Rounded(size) < size + 2 * HEADER
  {
    var d := DivCeil(Add32(size, HEADER), 8);
    assert Rounded(size) == d * 8;
    Multiples(d);
  }

  // Index of the header at address a.
  function FindHeader(s: seq<Area>, a: int): (r: Option<nat>)
    ensures r.Some? ==> r.value < |s| && s[r.value].addr == a
    ensures r.None? ==> forall i :: 0 <= i < |s| ==> s[i].addr != a
  {
    if s == [] then None
    else if s[|s| - 1].addr == a then Some(|s| - 1)
    else FindHeader(s[..|s| - 1], a)
  }

  // ---------- The five operations ----------

  function Allocate(repaired: bool, s: seq<Area>, r: Request): (r': (seq<Area>, int))
    requires |s| > 0
    ensures |r'.0| > 0
  {
    match BestFit(s, r)
    case None => (s, 0)
    case Some(k) => (Place(repaired, s, k, r), Payload(s, k, r))
  }

  function Malloc(repaired: bool, s: seq<Area>, size: Word): (r': (seq<Area>, int))
    requires |s| > 0
    ensures |r'.0| > 0
  {
    if size == 0 then (s, 0) else Allocate(repaired, s, Bytes(Rounded(size)))
  }

  function PageMalloc(repaired: bool, s: seq<Area>, n: Word): (r': (seq<Area>, int))
    requires |s| > 0
    ensures |r'.0| > 0
  {
    if n == 0 then (s, 0) else Allocate(repaired, s, Pages((n * PAGE_SIZE) % 0x1_0000_0000))
  }

  // kcalloc's total and its test for overflow.
  function Total(nmemb: Word, size: Word): Word {
    (nmemb * size) % 0x1_0000_0000
  }

  predicate CallocRejects(nmemb: Word, size: Word) {
    nmemb == 0 || size == 0 || size != Total(nmemb, size) / nmemb
  }

  function Calloc(repaired: bool, s: seq<Area>, nmemb: Word, size: Word): (r': (seq<Area>, int))
    requires |s| > 0
    ensures |r'.0| > 0
  {
    if CallocRejects(nmemb, size) then (s, 0) else Malloc(repaired, s, Total(nmemb, size))
  }

  // The header that the stored prev of header i names; None when it names
  // no header of the list below i.
  function StoredHeader(s: seq<Area>, i: nat): (r: Option<Option<nat>>)
    requires i < |s|
    ensures r.Some? ==> StoredPrev(s, i, r.value)
  {
    if s[i].prev == 0 then Some(None)
    else
      var j := FindHeader(s[..i], s[i].prev);
      if j.None? then None else Some(j)
  }

  // kfree of the used area i. bit is the used bit of the word that a stray
  // prev names.
  function FreeAt(repaired: bool, s: seq<Area>, i: nat, bit: bool): seq<Area>
    requires i < |s| - 1 && !TakesSentinel(repaired, s, i)
  {
    match StoredHeader(s, i)
    case Some(j) => Free(repaired, s, i, j)
    case None => MergeStray(repaired, Unmark(s, i), i, bit)
  }

  // ptr is null or names a block, and the code does not follow the sentinel's
  // null next.
  predicate Releasable(repaired: bool, s: seq<Area>, ptr: int)
    requires |s| > 0
  {
    var i := FindHeader(s[..|s| - 1], ptr - HEADER);
    ptr == 0 || (i.Some? && (s[i.value].used ==> !TakesSentinel(repaired, s, i.value)))
  }

  // kfree; None if ptr is not releasable. On lists whose prev links all point
  // backward, a prev that names no header behind area i is stray.
  function Release(repaired: bool, s: seq<Area>, ptr: int, bit: bool): (r: Option<seq<Area>>)
    requires |s| > 0
    ensures r.Some? <==> Releasable(repaired, s, ptr)
  {
    if ptr == 0 then Some(s)
    else
      match FindHeader(s[..|s| - 1], ptr - HEADER)
      case None => None
      case Some(i) =>
        if !s[i].used then Some(s)
        else if TakesSentinel(repaired, s, i) then None
        else Some(FreeAt(repaired, s, i, bit))
  }

  // ptr is null or names a block, which can be released if it has to move.
  predicate Reallocable(repaired: bool, s: seq<Area>, ptr: int, size: Word)
    requires |s| > 0
  {
    size == 0 || ptr == 0 ||
    var i := FindHeader(s[..|s| - 1], ptr - HEADER);
    i.Some? &&
    (Size(s, i.value) < size ==> var (t, p) := Malloc(repaired, s, size); p != 0 ==> Releasable(repaired, t, ptr))
  }

  // krealloc; bit is for its kfree.
  function Realloc(repaired: bool, s: seq<Area>, ptr: int, size: Word, bit: bool): (r: Option<(seq<Area>, int)>)
    requires |s| > 0
    ensures r.Some? <==> Reallocable(repaired, s, ptr, size)
  {
    if size == 0 then Some((s, 0))
    else if ptr == 0 then Some(Malloc(repaired, s, size))
    else
      match FindHeader(s[..|s| - 1], ptr - HEADER)
      case None => None
      case Some(i) =>
        if Size(s, i) >= size then Some((s, ptr))
        else
          var (t, p) := Malloc(repaired, s, size);
          if p == 0 then Some((t, 0))
          else
            var u := Release(repaired, t, ptr, bit);
            if u.None? then None else Some((u.value, p))
  }

  // ---------- Runs ----------

  // bit is what a kfree reads if it meets a stray prev; the list of areas does
  // not determine it.
  datatype Op =
    | DoMalloc(size: Word)
    | DoCalloc(nmemb: Word, size: Word)
    | DoRealloc(ptr: int, size: Word, bit: bool)
    | DoPageAlloc(n: Word)
    | DoFree(ptr: int, bit: bool)

  // The list and, for every pointer handed out and not yet given back, the
  // number of bytes its owner asked for.
  datatype State = State(areas: seq<Area>, owed: map<int, int>)

  // What the callers of the heap must respect.
  predicate Legal(st: State, op: Op) {
    match op
    case DoMalloc(size) => size <= MAX_REQUEST
    case DoCalloc(nmemb, size) => CallocRejects(nmemb, size) || Total(nmemb, size) <= MAX_REQUEST
    case DoRealloc(ptr, size, _) => size <= MAX_REQUEST && (ptr == 0 || ptr in st.owed)
    case DoPageAlloc(n) => n * PAGE_SIZE < 0x1_0000_0000
    case DoFree(ptr, _) => ptr == 0 || ptr in st.owed
  }

  function Hand(owed: map<int, int>, p: int, size: int): map<int, int> {
    if p == 0 then owed else owed[p := size]
  }

  function Step(repaired: bool, st: State, op: Op): Option<State>
    requires |st.areas| > 0
  {
    match op
    case DoMalloc(size) =>
      var (t, p) := Malloc(repaired, st.areas, size);
      Some(State(t, Hand(st.owed, p, size)))
    case DoCalloc(nmemb, size) =>
      var (t, p) := Calloc(repaired, st.areas, nmemb, size);
      Some(State(t, Hand(st.owed, p, nmemb * size)))
    case DoPageAlloc(n) =>
      var (t, p) := PageMalloc(repaired, st.areas, n);
      Some(State(t, Hand(st.owed, p, n * PAGE_SIZE)))
    case DoRealloc(ptr, size, bit) =>
      var r := Realloc(repaired, st.areas, ptr, size, bit);
      if r.None? then None
      else Some(State(r.value.0, if r.value.1 == 0 then st.owed else Hand(st.owed - {ptr}, r.value.1, size)))
    case DoFree(ptr, bit) =>
      var t := Release(repaired, st.areas, ptr, bit);
      if t.None? then None else Some(State(t.value, st.owed - {ptr}))
  }

  // None when some step leaves the list of headers.
  function Run(repaired: bool, st: State, ops: seq<Op>): Option<State>
    decreases |ops|
  {
    if ops == [] then Some(st)
    else if |st.areas| == 0 then None
    else
      var st' := Step(repaired, st, ops[0]);
      if st'.None? then None else Run(repaired, st'.value, ops[1..])
  }

  predicate LegalRun(repaired: bool, st: State, ops: seq<Op>)
    decreases |ops|
  {
    ops == [] ||
    (|st.areas| > 0 && Legal(st, ops[0]) &&
     var st' := Step(repaired, st, ops[0]);
     st'.Some? ==> LegalRun(repaired, st'.value, ops[1..]))
  }

  function Start0(lo: int, hi: int): State {
    State(Initial(lo, hi), map[])
  }

  predicate Bounds(lo: int, hi: int) {
    && 0 < lo && lo % PAGE_SIZE == 0 && hi % 8 == 0
    && lo + PAGE_SIZE <= hi < lo + GB && hi + HEADER <= 0x1_0000_0000
  }

  ghost function Payloads(s: seq<Area>): set<int> {
    set x | x in Live(s) :: x.0
  }

  // Every live area belongs to exactly one owner, who gets what was asked for.
  ghost predicate Owned(st: State) {
    && st.owed.Keys == Payloads(st.areas)
    && forall x :: x in Live(st.areas) ==> st.owed[x.0] <= x.1
  }

  ghost predicate Safe(st: State, lo: int, hi: int) {
    && Tiled(st.areas, lo, hi)
    && Linked(st.areas)
    && Coalesced(st.areas)
    && Owned(st)
  }

  // ---------- Single steps ----------

  ghost predicate Good(s: seq<Area>, lo: int, hi: int) {
    Tiled(s, lo, hi) && Linked(s) && Coalesced(s) && 0 < lo
  }

  // p is a new live block of at least size bytes, all others are as before.
  ghost predicate Granted(s: seq<Area>, t: seq<Area>, p: int, size: int) {
    && p > 0
    && (forall x :: x in Live(s) ==> x.0 != p)
    && exists z :: z >= size && Live(t) == Live(s) + {(p, z)}
  }

  lemma PlaceFresh(s: seq<Area>, k: nat, p: int, lo: int, hi: int)
    requires Tiled(s, lo, hi) && k < |s| - 1 && !s[k].used
    requires s[k].addr + HEADER <= p <= s[k + 1].addr
    ensures forall x :: x in Live(s) ==> x.0 != p
  {
    forall x | x in Live(s)
      ensures x.0 != p
    {
      var i :| 0 <= i < |s| - 1 && s[i].used && x == Extent(s, i);
      assert i < k || k < i;
    }
  }

  // Area k is the best fit for r, and block (p, z) was cut out of it.
  ghost predicate CutFrom(s: seq<Area>, r: Request, k: nat, p: int, z: int)
    requires |s| > 0
  {
    && IsBestFit(s, r, |s| - 1, k)
    && Usable(r) <= z && s[k].addr + HEADER <= p && p + z <= s[k + 1].addr
  }

  // As written or repaired, whatever the prev links say: allocation fails
  // exactly if no free area is large enough and then changes nothing;
  // otherwise one block cut out of the best fit joins the live ones.
  lemma AllocateCuts(repaired: bool, s: seq<Area>, r: Request, lo: int, hi: int)
    requires Tiled(s, lo, hi) && 0 < lo && Proper(r)
    ensures var (t, p) := Allocate(repaired, s, r);
      && Tiled(t, lo, hi)
      && (p == 0 <==> forall i: nat :: i < |s| - 1 ==> !Fits(s, r, i))
      && (p == 0 ==> t == s)
      && (p != 0 ==> exists k: nat, z: int :: CutFrom(s, r, k, p, z) && Live(t) == Live(s) + {(p, z)})
      && (r.Pages? ==> p % PAGE_SIZE == 0)
  {
    hide Live, Fits, Need, Usable, Place, Payload, PlacedIndex, Start;
    BestInIsBest(s, r, |s| - 1);
    if BestFit(s, r).Some? {
      var k := BestFit(s, r).value;
      PlaceKeepsTiling(repaired, s, k, r, lo, hi);
      PayloadOf(s, k, r, lo, hi);
      assert CutFrom(s, r, k, Payload(s, k, r), Size(Place(repaired, s, k, r), PlacedIndex(s, k, r)));
    }
  }

  lemma PayloadOf(s: seq<Area>, k: nat, r: Request, lo: int, hi: int)
    requires Tiled(s, lo, hi) && 0 < lo && k < |s| - 1
    ensures Payload(s, k, r) > 0 && (r.Pages? ==> Payload(s, k, r) % PAGE_SIZE == 0)
  {
    assert s[0].addr <= s[k].addr;
    NextPageFacts(s[k].addr);
  }

  lemma AllocateGood(s: seq<Area>, r: Request, lo: int, hi: int)
    requires Good(s, lo, hi) && Proper(r)
    ensures var (t, p) := Allocate(true, s, r);
      && Good(t, lo, hi)
      && (if p == 0 then t == s else Granted(s, t, p, Usable(r)))
      && (r.Pages? ==> p % PAGE_SIZE == 0)
      && (p == 0 <==> BestFit(s, r) == None)
  {
    BestInIsBest(s, r, |s| - 1);
    if BestFit(s, r).Some? {
      var k := BestFit(s, r).value;
      AllocateInGood(s, k, r, lo, hi);
    }
  }

  lemma AllocateInGood(s: seq<Area>, k: nat, r: Request, lo: int, hi: int)
    requires Good(s, lo, hi) && Proper(r) && k < |s| - 1 && Fits(s, r, k)
    ensures var t, p := Place(true, s, k, r), Payload(s, k, r);
      Good(t, lo, hi) && Granted(s, t, p, Usable(r)) && (r.Pages? ==> p % PAGE_SIZE == 0)
  {
    PlaceKeepsTiling(true, s, k, r, lo, hi);
    PlaceLinkedExactly(true, s, k, r, lo, hi);
    PlaceCoalesced(true, s, k, r);
    PlaceFresh(s, k, Payload(s, k, r), lo, hi);
    NextPageFacts(s[k].addr);
    assert s[0].addr <= s[k].addr;
  }

  lemma MallocGood(s: seq<Area>, size: Word, lo: int, hi: int)
    requires Good(s, lo, hi) && size <= MAX_REQUEST
    ensures var (t, p) := Malloc(true, s, size);
      Good(t, lo, hi) && (if p == 0 then t == s else Granted(s, t, p, size))
  {
    RoundedExactly(size);
    if size != 0 {
      AllocateGood(s, Bytes(Rounded(size)), lo, hi);
    }
  }

  // As long as the size does not wrap, kpagealloc asks for whole pages.
  lemma PagesRequest(repaired: bool, s: seq<Area>, n: Word)
    requires |s| > 0 && n * PAGE_SIZE < 0x1_0000_0000
    ensures var r := Pages(n * PAGE_SIZE);
      && PageMalloc(repaired, s, n) == (if n == 0 then (s, 0) else Allocate(repaired, s, r))
      && (n != 0 ==> Proper(r)) && Usable(r) == n * PAGE_SIZE && r.Pages?
  {
    hide Allocate;
    Multiples(n);
  }

  lemma PageMallocGood(s: seq<Area>, n: Word, lo: int, hi: int)
    requires Good(s, lo, hi) && n * PAGE_SIZE < 0x1_0000_0000
    ensures var (t, p) := PageMalloc(true, s, n);
      && Good(t, lo, hi) && p % PAGE_SIZE == 0
      && (if p == 0 then t == s else Granted(s, t, p, n * PAGE_SIZE))
  {
    hide Allocate, PageMalloc, Linked, Coalesced, Ascending, Aligned, Granted, Live, Usable, Proper;
    PagesRequest(true, s, n);
    if n != 0 {
      AllocateGood(s, Pages(n * PAGE_SIZE), lo, hi);
    }
  }

  lemma MulMonotone(n: int, a: int, b: int)
    requires n >= 0 && a <= b
    ensures n * a <= n * b
  {
    assert n * (b - a) >= 0;
  }

  lemma QuotientBelow(q: nat, n: int, a: int)
    requires n > 0
    ensures q < n * a ==> q / n < a
    ensures q == n * a ==> q / n == a
  {
    var d := q / n;
    assert n * d <= q < n * (d + 1);
    if a <= d {
      MulMonotone(n, a, d);
    }
    if d + 1 <= a {
      MulMonotone(n, d + 1, a);
    }
  }

  // kcalloc's division test rejects exactly empty requests and products that
  // do not fit in a size_t.
  lemma CallocRejectsExactly(nmemb: Word, size: Word)
    ensures CallocRejects(nmemb, size) <==> nmemb == 0 || size == 0 || nmemb * size >= 0x1_0000_0000
    ensures !CallocRejects(nmemb, size) ==> Total(nmemb, size) == nmemb * size
  {
    if nmemb > 0 {
      var m := nmemb * size;
      MulMonotone(nmemb, 0, size);
      QuotientBelow(m % 0x1_0000_0000, nmemb, size);
    }
  }

  lemma FindLive(s: seq<Area>, p: int, z: int, lo: int, hi: int)
    requires Tiled(s, lo, hi) && (p, z) in Live(s)
    ensures var f := FindHeader(s[..|s| - 1], p - HEADER);
      f.Some? && s[f.value].used && Extent(s, f.value) == (p, z)
  {
    var i :| 0 <= i < |s| - 1 && s[i].used && (p, z) == Extent(s, i);
    var f := FindHeader(s[..|s| - 1], p - HEADER);
    assert s[..|s| - 1][i].addr == p - HEADER;
    assert s[f.value].addr == s[i].addr;
  }

  lemma StoredHeaderIsPred(s: seq<Area>, i: nat, lo: int, hi: int)
    requires Good(s, lo, hi) && i < |s|
    ensures StoredHeader(s, i) == Some(Pred(i))
  {
    PredIsStored(s, i, lo, hi);
    if i > 0 {
      assert s[..i][i - 1].addr == s[i].prev;
    }
  }

  lemma ReleaseGood(s: seq<Area>, p: int, z: int, bit: bool, lo: int, hi: int)
    requires Good(s, lo, hi) && (p, z) in Live(s)
    ensures var t := Release(true, s, p, bit);
      t.Some? && Good(t.value, lo, hi) && Live(t.value) == Live(s) - {(p, z)}
  {
    FindLive(s, p, z, lo, hi);
    var i := FindHeader(s[..|s| - 1], p - HEADER).value;
    assert s[0].addr <= s[i].addr;
    StoredHeaderIsPred(s, i, lo, hi);
    PredIsStored(s, i, lo, hi);
    FreeTiled(true, s, i, Pred(i), lo, hi);
    FreeLiveExactly(true, s, i, Pred(i), lo, hi);
    FreeLinkedExactly(true, s, i, lo, hi);
    FreeCoalesced(true, s, i);
  }

  lemma ReallocOfLive(repaired: bool, s: seq<Area>, p: int, z: int, size: Word, bit: bool, lo: int, hi: int)
    requires Tiled(s, lo, hi) && 0 < lo && (p, z) in Live(s)
    ensures Realloc(repaired, s, p, size, bit) ==
      if size == 0 then Some((s, 0))
      else if z >= size then Some((s, p))
      else
        var (t, q) := Malloc(repaired, s, size);
        if q == 0 then Some((t, 0))
        else
          var u := Release(repaired, t, p, bit);
          if u.None? then None else Some((u.value, q))
  {
    FindLive(s, p, z, lo, hi);
    LivePositive(s, p, z, lo, hi);
    hide Malloc, Release, Live, Tiled, Linked, Coalesced;
  }

  // krealloc keeps the block, or moves it to a new one, or fails and leaves
  // the heap as it was.
  lemma ReallocGood(s: seq<Area>, p: int, z: int, size: Word, bit: bool, lo: int, hi: int)
    requires Good(s, lo, hi) && (p, z) in Live(s) && size <= MAX_REQUEST
    ensures var r := Realloc(true, s, p, size, bit);
      r.Some? && Good(r.value.0, lo, hi) && Moved(s, r.value.0, p, z, r.value.1, size)
  {
    ReallocOfLive(true, s, p, z, size, bit, lo, hi);
    LivePositive(s, p, z, lo, hi);
    hide Realloc, Malloc, Release, Live, Tiled, Linked, Coalesced;
    if size > z {
      var (t, q) := Malloc(true, s, size);
      MallocGood(s, size, lo, hi);
      if q != 0 {
        ReleaseGood(t, p, z, bit, lo, hi);
        MovedByCopy(s, t, Release(true, t, p, bit).value, p, z, q, size);
      }
    }
  }

  lemma MovedByCopy(s: seq<Area>, t: seq<Area>, u: seq<Area>, p: int, z: int, q: int, size: int)
    requires Granted(s, t, q, size) && (p, z) in Live(s) && Live(u) == Live(t) - {(p, z)}
    ensures Moved(s, u, p, z, q, size) && q != p
  {
    var z' :| z' >= size && Live(t) == Live(s) + {(q, z')};
    assert (p, z).0 != q;
    assert Live(u) == Live(s) - {(p, z)} + {(q, z')};
  }

  // Block (p, z) became q: it failed and nothing changed, or q is p and large
  // enough, or q is a new block and p is gone.
  ghost predicate Moved(s: seq<Area>, t: seq<Area>, p: int, z: int, q: int, size: int) {
    && q >= 0
    && (q == 0 ==> t == s)
    && (q == p ==> t == s && z >= size)
    && (q != 0 && q != p ==>
          && (forall x :: x in Live(s) ==> x.0 != q)
          && exists z' :: z' >= size && Live(t) == Live(s) - {(p, z)} + {(q, z')})
  }

  lemma LivePositive(s: seq<Area>, p: int, z: int, lo: int, hi: int)
    requires Tiled(s, lo, hi) && (p, z) in Live(s)
    ensures lo + HEADER <= p && 0 <= z && p + z <= hi
    ensures forall z' :: (p, z') in Live(s) ==> z' == z
  {
    var i :| 0 <= i < |s| - 1 && s[i].used && (p, z) == Extent(s, i);
    assert s[0].addr <= s[i].addr;
    assert s[i + 1].addr <= s[|s| - 1].addr;
    forall z' | (p, z') in Live(s)
      ensures z' == z
    {
      var j :| 0 <= j < |s| - 1 && s[j].used && (p, z') == Extent(s, j);
      assert s[j].addr == s[i].addr;
    }
  }

  // Live payloads are disjoint, with a header between them, and in the heap.
  lemma LiveDisjoint(s: seq<Area>, x: (int, int), y: (int, int), lo: int, hi: int)
    requires Tiled(s, lo, hi) && x in Live(s) && y in Live(s) && x != y
    ensures x.0 + x.1 + HEADER <= y.0 || y.0 + y.1 + HEADER <= x.0
  {
    var i :| 0 <= i < |s| - 1 && s[i].used && x == Extent(s, i);
    var j :| 0 <= j < |s| - 1 && s[j].used && y == Extent(s, j);
    assert i < j || j < i;
    if i < j {
      assert s[i + 1].addr <= s[j].addr;
    } else {
      assert s[j + 1].addr <= s[i].addr;
    }
  }

  lemma PayloadsAfterGrant(s: seq<Area>, t: seq<Area>, p: int, z: int)
    requires Live(t) == Live(s) + {(p, z)}
    ensures Payloads(t) == Payloads(s) + {p}
  {
    assert (p, z) in Live(t);
    forall q | q in Payloads(s)
      ensures q in Payloads(t)
    {
      var x :| x in Live(s) && x.0 == q;
      assert x in Live(t);
    }
  }

  lemma PayloadsAfterRelease(s: seq<Area>, t: set<(int, int)>, p: int, z: int, lo: int, hi: int)
    requires Tiled(s, lo, hi) && (p, z) in Live(s) && t == Live(s) - {(p, z)}
    ensures (set x | x in t :: x.0) == Payloads(s) - {p}
  {
    LivePositive(s, p, z, lo, hi);
    forall q | q in Payloads(s) - {p}
      ensures q in set x | x in t :: x.0
    {
      var x :| x in Live(s) && x.0 == q;
      assert x in t;
    }
    forall x | x in t
      ensures x.0 != p
    {
      assert x == (x.0, x.1);
    }
  }

  lemma OwnedAfterGrant(st: State, t: seq<Area>, p: int, size: int)
    requires Owned(st) && Granted(st.areas, t, p, size)
    ensures Owned(State(t, st.owed[p := size]))
  {
    var z :| z >= size && Live(t) == Live(st.areas) + {(p, z)};
    PayloadsAfterGrant(st.areas, t, p, z);
  }

  lemma OwnedAfterRelease(st: State, t: seq<Area>, p: int, z: int, lo: int, hi: int)
    requires Owned(st) && Tiled(st.areas, lo, hi)
    requires (p, z) in Live(st.areas) && Live(t) == Live(st.areas) - {(p, z)}
    ensures Owned(State(t, st.owed - {p}))
  {
    PayloadsAfterRelease(st.areas, Live(t), p, z, lo, hi);
    assert forall x :: x in Live(t) ==> x.0 in Payloads(t);
  }

  lemma OwnedAfterMove(st: State, t: seq<Area>, p: int, z: int, q: int, z': int, size: int, lo: int, hi: int)
    requires Owned(st) && Tiled(st.areas, lo, hi) && (p, z) in Live(st.areas)
    requires forall x :: x in Live(st.areas) ==> x.0 != q
    requires z' >= size && Live(t) == Live(st.areas) - {(p, z)} + {(q, z')}
    ensures Owned(State(t, (st.owed - {p})[q := size]))
  {
    hide Live, Tiled;
    var rest := Live(st.areas) - {(p, z)};
    PayloadsAfterRelease(st.areas, rest, p, z, lo, hi);
    OwedAfterMove(st.owed, Live(st.areas), rest, p, q, z', size);
  }

  // The same about the set of blocks.
  lemma OwedAfterMove(owed: map<int, int>, live: set<(int, int)>, rest: set<(int, int)>, p: int, q: int, z': int, size: int)
    requires owed.Keys == (set x | x in live :: x.0) && forall x :: x in live ==> owed[x.0] <= x.1
    requires rest <= live && (set x | x in rest :: x.0) == owed.Keys - {p} && q !in owed - {p} && z' >= size
    ensures var owed', live' := (owed - {p})[q := size], rest + {(q, z')};
      owed'.Keys == (set x | x in live' :: x.0) && forall x :: x in live' ==> owed'[x.0] <= x.1
  {
    var owed', live' := (owed - {p})[q := size], rest + {(q, z')};
    assert forall x :: x in rest ==> x.0 in owed - {p};
    forall k | k in owed'.Keys
      ensures k in (set x | x in live' :: x.0)
    {
      if k == q {
        assert (q, z') in live';
      } else {
        var x :| x in rest && x.0 == k;
        assert x in live';
      }
    }
  }

  lemma BlockOf(s: seq<Area>, p: int) returns (z: int)
    requires p in Payloads(s)
    ensures (p, z) in Live(s)
  {
    var x :| x in Live(s) && x.0 == p;
    z := x.1;
  }

  // Every legal step of the repaired heap keeps it safe, and gives up or moves
  // no live block but the one it was asked to.
  lemma StepSafe(st: State, op: Op, lo: int, hi: int)
    requires Safe(st, lo, hi) && 0 < lo && Legal(st, op)
    ensures var st' := Step(true, st, op);
      st'.Some? && Safe(st'.value, lo, hi) && KeepsOthers(st.areas, st'.value.areas, op)
  {
    var s := st.areas;
    match op
    case DoMalloc(size) =>
      MallocGood(s, size, lo, hi);
      AfterGrant(st, Malloc(true, s, size), size);
    case DoCalloc(nmemb, size) =>
      CallocRejectsExactly(nmemb, size);
      if !CallocRejects(nmemb, size) {
        MallocGood(s, Total(nmemb, size), lo, hi);
        AfterGrant(st, Malloc(true, s, Total(nmemb, size)), nmemb * size);
      }
    case DoPageAlloc(n) =>
      PageMallocGood(s, n, lo, hi);
      AfterGrant(st, PageMalloc(true, s, n), n * PAGE_SIZE);
    case DoRealloc(ptr, size, bit) =>
      StepReallocSafe(st, ptr, size, bit, lo, hi);
    case DoFree(ptr, bit) =>
      if ptr == 0 {
        NullNotOwed(st, lo, hi);
      } else {
        var z := BlockOf(s, ptr);
        ReleaseGood(s, ptr, z, bit, lo, hi);
        OwnedAfterRelease(st, Release(true, s, ptr, bit).value, ptr, z, lo, hi);
      }
  }

  // The blocks that op does not concern are where and as large as they were.
  ghost predicate KeepsOthers(s: seq<Area>, t: seq<Area>, op: Op) {
    forall x :: x in Live(s) && !Concerns(op, x.0) ==> x in Live(t)
  }

  predicate Concerns(op: Op, p: int) {
    (op.DoFree? || op.DoRealloc?) && op.ptr == p
  }

  lemma AfterGrant(st: State, r: (seq<Area>, int), size: int)
    requires Owned(st) && (if r.1 == 0 then r.0 == st.areas else Granted(st.areas, r.0, r.1, size))
    ensures Owned(State(r.0, Hand(st.owed, r.1, size)))
    ensures Live(st.areas) <= Live(r.0)
  {
    if r.1 != 0 {
      OwnedAfterGrant(st, r.0, r.1, size);
    }
  }

  lemma NullNotOwed(st: State, lo: int, hi: int)
    requires Safe(st, lo, hi) && 0 < lo
    ensures st.owed - {0} == st.owed
  {
    forall x | x in Live(st.areas)
      ensures x.0 != 0
    {
      LivePositive(st.areas, x.0, x.1, lo, hi);
    }
  }

  lemma StepReallocSafe(st: State, ptr: int, size: Word, bit: bool, lo: int, hi: int)
    requires Safe(st, lo, hi) && 0 < lo && Legal(st, DoRealloc(ptr, size, bit))
    ensures var st' := Step(true, st, DoRealloc(ptr, size, bit));
      st'.Some? && Safe(st'.value, lo, hi) && KeepsOthers(st.areas, st'.value.areas, DoRealloc(ptr, size, bit))
  {
    var s := st.areas;
    hide Live, Ascending, Aligned, Linked, Coalesced, Allocate, Owned, KeepsOthers, Payloads;
    if ptr == 0 {
      NullNotOwed(st, lo, hi);
      MallocGood(s, size, lo, hi);
      AfterGrant(st, Malloc(true, s, size), size);
      GrantKeepsOthers(s, Malloc(true, s, size).0, DoRealloc(ptr, size, bit));
    } else {
      OwnedPayload(st, ptr);
      var z := BlockOf(s, ptr);
      ReallocGood(s, ptr, z, size, bit, lo, hi);
      hide Realloc;
      MoveSafe(st, ptr, z, size, bit, Realloc(true, s, ptr, size, bit).value, lo, hi);
    }
  }

  lemma OwnedPayload(st: State, p: int)
    requires Owned(st) && p in st.owed
    ensures p in Payloads(st.areas)
  {
  }

  lemma GrantKeepsOthers(s: seq<Area>, t: seq<Area>, op: Op)
    requires Live(s) <= Live(t)
    ensures KeepsOthers(s, t, op)
  {
  }

  lemma MoveSafe(st: State, ptr: int, z: int, size: Word, bit: bool, r: (seq<Area>, int), lo: int, hi: int)
    requires Safe(st, lo, hi) && 0 < lo && (ptr, z) in Live(st.areas)
    requires Moved(st.areas, r.0, ptr, z, r.1, size)
    ensures Owned(State(r.0, if r.1 == 0 then st.owed else Hand(st.owed - {ptr}, r.1, size)))
    ensures KeepsOthers(st.areas, r.0, DoRealloc(ptr, size, bit))
  {
    OnlyBlockAt(st.areas, ptr, z, lo, hi);
    if r.1 == ptr {
      assert ptr in Payloads(st.areas);
      assert (st.owed - {ptr})[ptr := size].Keys == st.owed.Keys;
    } else if r.1 != 0 {
      var z' :| z' >= size && Live(r.0) == Live(st.areas) - {(ptr, z)} + {(r.1, z')};
      hide Owned, Live, Tiled, Linked, Coalesced;
      OwnedAfterMove(st, r.0, ptr, z, r.1, z', size, lo, hi);
    }
  }

  lemma OnlyBlockAt(s: seq<Area>, p: int, z: int, lo: int, hi: int)
    requires Tiled(s, lo, hi) && (p, z) in Live(s)
    ensures forall x :: x in Live(s) ==> x == (p, z) || x.0 != p
  {
    LivePositive(s, p, z, lo, hi);
    hide Live;
    forall x | x in Live(s)
      ensures x == (p, z) || x.0 != p
    {
      assert x == (x.0, x.1);
    }
  }
}
