// The kernel heap as a value: the address-ordered list of area headers that
// the words of the heap encode, and the list operations of the allocator.
module Areas {
  import opened Words

  // sizeof(struct heap_area)
  const HEADER := 8

  // One header. `next` is the address of the following element; the last
  // element of a list is the epsilon sentinel at heap_end.
  datatype Area = Area(addr: int, prev: int, used: bool)

  predicate Ascending(s: seq<Area>) {
    forall i, j :: 0 <= i < j < |s| ==> s[i].addr + HEADER <= s[j].addr
  }

  predicate Aligned(s: seq<Area>) {
    forall i :: 0 <= i < |s| ==> s[i].addr % 8 == 0
  }

  // The headers tile lo..hi: following `next` from heap_start visits strictly
  // ascending 8-aligned headers and ends at the sentinel.
  predicate Tiled(s: seq<Area>, lo: int, hi: int) {
    && |s| >= 2
    && s[0].addr == lo
    && s[|s| - 1].addr == hi
    && !s[|s| - 1].used
    && Ascending(s)
    && Aligned(s)
  }

  // `prev` is the exact inverse of `next`.
  predicate Linked(s: seq<Area>) {
    && |s| > 0
    && s[0].prev == 0
    && forall i, j :: 0 <= i && j == i + 1 < |s| ==> s[j].prev == s[i].addr
  }

  // Every prev is null or lies behind its header, in the heap. It may be stray:
  // name no header any more.
  predicate Backward(s: seq<Area>, lo: int) {
    forall i :: 0 <= i < |s| ==> s[i].prev == 0 || lo <= s[i].prev < s[i].addr
  }

  // No two neighbouring areas are both free.
  predicate Coalesced(s: seq<Area>) {
    forall i, j :: 0 <= i && j == i + 1 < |s| - 1 ==> s[i].used || s[j].used
  }

  // get_area_size
  function Size(s: seq<Area>, i: nat): int
    requires i < |s| - 1
  {
    s[i + 1].addr - s[i].addr - HEADER
  }

  // The live allocations: (payload address, payload size).
  ghost function Live(s: seq<Area>): set<(int, int)> {
    LiveIn(s, 0, |s| - 1)
  }

  ghost function LiveIn(s: seq<Area>, from: int, to: int): set<(int, int)>
    requires 0 <= from && to < |s|
  {
    set i | from <= i < to && s[i].used :: Extent(s, i)
  }

  function Extent(s: seq<Area>, i: nat): (int, int)
    requires i < |s| - 1
  {
    (s[i].addr + HEADER, Size(s, i))
  }

  function Initial(lo: int, hi: int): seq<Area> {
    [Area(lo, 0, false), Area(hi, lo, false)]
  }

  // ---------- Best fit ----------

  // What is asked of an area: `size` bytes counted from the header (kmalloc,
  // after rounding), or `size` bytes starting at a page boundary (kpagealloc).
  datatype Request = Bytes(size: int) | Pages(size: int)

  // The area size that a free area at address a has to exceed.
  function Need(r: Request, a: int): int {
    match r
    case Bytes(size) => size
    case Pages(size) =>
      size + (NextPage(a) - a) + HEADER + (if NextPage(a) - HEADER != a then HEADER else 0)
  }

  predicate Fits(s: seq<Area>, r: Request, i: nat)
    requires i < |s| - 1
  {
    !s[i].used && Size(s, i) > Need(r, s[i].addr)
  }

  // The choice of the search loop after visiting the first n areas.
  function BestIn(s: seq<Area>, r: Request, n: nat): (b: Option<nat>)
    requires n < |s|
    ensures b.Some? ==> b.value < n
  {
    if n == 0 then None
    else
      var b := BestIn(s, r, n - 1);
      if Fits(s, r, n - 1) && (b.None? || Size(s, b.value) > Size(s, n - 1)) then Some(n - 1) else b
  }

  function BestFit(s: seq<Area>, r: Request): (b: Option<nat>)
    requires |s| > 0
    ensures b.Some? ==> b.value < |s| - 1
  {
    BestIn(s, r, |s| - 1)
  }

  // The smallest fitting area; on ties the one with the lowest address.
  ghost predicate IsBestFit(s: seq<Area>, r: Request, n: nat, k: nat)
    requires n < |s|
  {
    && k < n
    && Fits(s, r, k)
    && forall i: nat :: i < n && Fits(s, r, i) ==>
         Size(s, k) <= Size(s, i) && (i < k ==> Size(s, k) < Size(s, i))
  }

  // ---------- Splitting ----------

  // A new header at address `at` inside area k. Only when `link` holds does
  // the old successor's prev follow.
  function Insert(link: bool, s: seq<Area>, k: nat, at: int): (t: seq<Area>)
    requires k < |s| - 1
    ensures |t| == |s| + 1
  {
    s[..k + 1] + [Area(at, s[k].addr, false)]
    + [if link then s[k + 1].(prev := at) else s[k + 1]] + s[k + 2..]
  }

  function Mark(s: seq<Area>, k: nat): seq<Area>
    requires k < |s|
  {
    s[k := s[k].(used := true)]
  }

  // The header of the allocation cut from a free area at address a. For
  // kpagealloc it lies right in front of the first page boundary after a.
  function Start(r: Request, a: int): int {
    match r
    case Bytes(_) => a
    case Pages(_) => NextPage(a) - HEADER
  }

  // The bytes the caller may use: kmalloc's rounding includes one header.
  function Usable(r: Request): int {
    match r
    case Bytes(size) => size - HEADER
    case Pages(size) => size
  }

  // The end of the allocation, where the tail header goes.
  function TailAddr(r: Request, a: int): int {
    Start(r, a) + HEADER + Usable(r)
  }

  // Does the free rest behind the allocation get a header?
  predicate TailSplit(s: seq<Area>, k: nat, r: Request)
    requires k < |s| - 1
  {
    match r
    case Bytes(size) => Size(s, k) - size > 2 * HEADER
    case Pages(size) =>
      Size(s, k) - (size + (NextPage(s[k].addr) - s[k].addr) + HEADER) > 2 * HEADER
  }

  // Index of the allocated area in Place(repaired, s, k, r).
  function PlacedIndex(s: seq<Area>, k: nat, r: Request): nat
    requires k < |s|
  {
    if Start(r, s[k].addr) == s[k].addr then k else k + 1
  }

  // The list with a header at the start of the allocation. This front split
  // (kpagealloc only) does keep the old successor's prev right.
  function Fronted(s: seq<Area>, k: nat, r: Request): (t: seq<Area>)
    requires k < |s| - 1
    ensures PlacedIndex(s, k, r) < |t| - 1
  {
    if Start(r, s[k].addr) == s[k].addr then s else Insert(true, s, k, Start(r, s[k].addr))
  }

  // The cut that kmalloc and kpagealloc make in area k. As written
  // (!repaired) the tail split leaves the old successor's prev alone (R1).
  function Place(repaired: bool, s: seq<Area>, k: nat, r: Request): (t: seq<Area>)
    requires k < |s| - 1
    ensures PlacedIndex(s, k, r) < |t| - 1
  {
    var i := PlacedIndex(s, k, r);
    var f := Fronted(s, k, r);
    Mark(if TailSplit(s, k, r) then Insert(repaired, f, i, TailAddr(r, s[k].addr)) else f, i)
  }

  // The address an allocation in area k returns.
  function Payload(s: seq<Area>, k: nat, r: Request): int
    requires k < |s|
  {
    Start(r, s[k].addr) + HEADER
  }

  // ---------- Merging ----------

  // Link header j directly to header i, dropping what lies between.
  function Splice(s: seq<Area>, j: nat, i: nat, prev: int): seq<Area>
    requires j < i < |s|
  {
    s[..j + 1] + [s[i].(prev := prev)] + s[i + 1..]
  }

  // j is the header that the stored prev of header i names.
  predicate StoredPrev(s: seq<Area>, i: nat, j: Option<nat>)
    requires i < |s|
  {
    match j
    case None => s[i].prev == 0
    case Some(k) => k < i && s[k].addr == s[i].prev && s[k].addr != 0
  }

  // As written the sentinel is never marked used, so freeing the last area
  // takes it for a free neighbour and follows its null next (R3).
  predicate TakesSentinel(repaired: bool, s: seq<Area>, i: nat) {
    !repaired && i + 1 == |s| - 1
  }

  // merge_free_areas of the free area i. j is what its prev names.
  function Merge(repaired: bool, f: seq<Area>, i: nat, j: Option<nat>): seq<Area>
    requires i < |f| - 1 && !TakesSentinel(repaired, f, i)
    requires StoredPrev(f, i, j)
  {
    var towardsRoot := j.Some? && !f[j.value].used;
    var towardsTail := i + 1 < |f| - 1 && !f[i + 1].used;
    if towardsRoot && towardsTail then
      Splice(f, j.value, i + 2, f[j.value].addr)
    else if towardsTail then
      // R2: as written the absorbed header, not its successor, gets the new prev.
      Splice(f, i, i + 2, if repaired then f[i].addr else f[i + 2].prev)
    else if towardsRoot then
      Splice(f, j.value, i + 1, f[j.value].addr)
    else f
  }

  // Is the successor of area i free, other than the sentinel?
  predicate FreeBehind(s: seq<Area>, i: nat)
    requires i < |s| - 1
  {
    i + 1 < |s| - 1 && !s[i + 1].used
  }

  // The header whose prev a merge towards the root sets, and to which it lets
  // the word that prev names point.
  function RootTarget(s: seq<Area>, i: nat): (d: nat)
    requires i < |s| - 1
    ensures i < d < |s|
  {
    if FreeBehind(s, i) then i + 2 else i + 1
  }

  // merge_free_areas of the free area i whose prev is stray: it lies behind
  // area i and names no header. bit is the used bit of the word there. If it is
  // clear, that word is taken for a free header, and nothing is merged.
  function MergeStray(repaired: bool, f: seq<Area>, i: nat, bit: bool): seq<Area>
    requires i < |f| - 1 && !TakesSentinel(repaired, f, i)
  {
    if !bit then
      var d := RootTarget(f, i);
      f[d := f[d].(prev := f[i].prev)]
    else if FreeBehind(f, i) then
      Splice(f, i, i + 2, if repaired then f[i].addr else f[i + 2].prev)
    else f
  }

  function Unmark(s: seq<Area>, i: nat): seq<Area>
    requires i < |s|
  {
    s[i := s[i].(used := false)]
  }

  // kfree of used area i.
  function Free(repaired: bool, s: seq<Area>, i: nat, j: Option<nat>): seq<Area>
    requires i < |s| - 1 && !TakesSentinel(repaired, s, i)
    requires StoredPrev(s, i, j)
  {
    Merge(repaired, Unmark(s, i), i, j)
  }

  function Pred(i: nat): Option<nat> {
    if i == 0 then None else Some(i - 1)
  }
}
