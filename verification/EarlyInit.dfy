// Building the frame bitmap from the boot loader's memory map.
module MemoryMap {
  import opened Words

  const AVAILABLE := 1

  const TWO64: int := 0x1_0000_0000_0000_0000

  // struct multiboot_mmap_entry without its stride.
  datatype Entry = Entry(addr: int, length: int, kind: int) {
    predicate Available() {
      kind == AVAILABLE
    }

    function End(): int {
      addr + length
    }
  }

  // 64-bit fields, and no entry reaches beyond 2^64.
  predicate Sane(entries: seq<Entry>) {
    forall i :: 0 <= i < |entries| ==>
      0 <= entries[i].addr && 0 <= entries[i].length && entries[i].End() < TWO64
  }

  // c is reserved and starts strictly inside e.
  predicate StartsInside(c: Entry, e: Entry) {
    !c.Available() && e.addr < c.addr < e.End()
  }

  // The length of e after looking at the first n entries.
  function ClippedLength(e: Entry, entries: seq<Entry>, n: nat): (l: int)
    requires n <= |entries|
    ensures l <= e.length
    ensures 0 <= e.length ==> 0 <= l
  {
    if n == 0 then e.length
    else
      var l := ClippedLength(e, entries, n - 1);
      var c := entries[n - 1];
      if StartsInside(c, e) && c.addr - e.addr < l then c.addr - e.addr else l
  }

  function Clipped(entries: seq<Entry>, i: nat): Entry
    requires i < |entries|
  {
    var e := entries[i];
    if e.Available() then e.(length := ClippedLength(e, entries, |entries|)) else e
  }

  // The start moved up to a page boundary and the length adjusted, in 64 bits.
  function PageAligned(e: Entry): Entry {
    if e.addr % PAGE_SIZE == 0 then e
    else
      var addr := (e.addr + (PAGE_SIZE - e.addr % PAGE_SIZE)) % TWO64;
      Entry(addr, (e.length - (PAGE_SIZE - (addr + e.length) % TWO64 % PAGE_SIZE)) % TWO64, e.kind)
  }

  function Sanitized(entries: seq<Entry>, i: nat): Entry
    requires i < |entries|
  {
    if entries[i].Available() then PageAligned(Clipped(entries, i)) else entries[i]
  }

  // Whatever the order of the list, the clipped length is the minimum of the
  // original length and the distance to the lowest reserved start inside.
  lemma {:induction false} ClippedIsMinimum(e: Entry, entries: seq<Entry>, n: nat)
    requires n <= |entries|
    ensures var l := ClippedLength(e, entries, n);
      && (forall i :: 0 <= i < n && StartsInside(entries[i], e) ==> l <= entries[i].addr - e.addr)
      && (l == e.length || exists i :: 0 <= i < n && StartsInside(entries[i], e) && l == entries[i].addr - e.addr)
  {
    if n > 0 {
      ClippedIsMinimum(e, entries, n - 1);
    }
  }

  // Some address lies in both.
  predicate Overlap(c: Entry, e: Entry) {
    c.addr < e.End() && e.addr < c.End() && c.length > 0 && e.length > 0
  }

  // Clipping keeps reserved range c out of e exactly unless c starts at or
  // before e and reaches into what is left of it.
  lemma ClippingExcludesExactly(entries: seq<Entry>, i: nat, j: nat)
    requires Sane(entries) && i < |entries| && j < |entries|
    requires entries[i].Available() && !entries[j].Available() && entries[j].length > 0
    ensures var e, c := Clipped(entries, i), entries[j];
      Overlap(c, e) <==> c.addr <= e.addr < c.End() && e.length > 0
  {
    ClippedIsMinimum(entries[i], entries, |entries|);
    var e, c := entries[i], entries[j];
    if e.addr < c.addr < Clipped(entries, i).End() {
      assert StartsInside(c, e);
    }
  }

  // The number of pages init_frame_allocator takes from a sanitized entry.
  function PageTotal(e: Entry): Word {
    e.length / PAGE_SIZE % 0x1_0000_0000
  }

  // For an entry that does not start on a page boundary the length adjustment
  // keeps the pages inside the entry exactly in these cases.
  predicate AdjustmentFits(e: Entry) {
    var r, a := e.length % PAGE_SIZE, e.addr % PAGE_SIZE;
    if e.length < PAGE_SIZE then r >= PAGE_SIZE / 2
    else r < PAGE_SIZE / 2 || r + a >= PAGE_SIZE
  }

  lemma AdjustedLength(e: Entry, q: int, r: int, a: int, b: int)
    requires 0 <= q && 0 <= r < PAGE_SIZE && 0 < a < PAGE_SIZE && 0 <= b
    requires e.length == q * PAGE_SIZE + r && e.addr == b * PAGE_SIZE + a && e.End() + PAGE_SIZE < TWO64
    ensures var n := PageAligned(e);
      && n.addr == (b + 1) * PAGE_SIZE
      && n.length == (if q * PAGE_SIZE + 2 * r >= PAGE_SIZE then 0 else TWO64) + (q - 1) * PAGE_SIZE + 2 * r
  {
    var addr := (b + 1) * PAGE_SIZE;
    Remainder(b, a);
    Remainder(b + 1 + q, r);
    assert e.addr + (PAGE_SIZE - a) == addr;
    assert addr + e.length == (b + 1 + q) * PAGE_SIZE + r;
    var left := e.length - (PAGE_SIZE - r);
    Wraps(addr);
    Wraps(addr + e.length);
    if left >= 0 {
      Wraps(left);
    } else {
      WrapsOnce(left);
    }
  }

  lemma Remainder(k: int, r: int)
    requires 0 <= r < PAGE_SIZE
    ensures (k * PAGE_SIZE + r) % PAGE_SIZE == r
  {
  }

  lemma Wraps(x: int)
    requires 0 <= x < TWO64
    ensures x % TWO64 == x
  {
  }

  lemma WrapsOnce(x: int)
    requires -TWO64 <= x < 0
    ensures x % TWO64 == x + TWO64
  {
  }

  lemma PageAlignedFitsExactly(e: Entry)
    requires e.addr >= 0 && e.length >= 0 && e.addr % PAGE_SIZE != 0 && e.End() + PAGE_SIZE <= 0x1_0000_0000
    ensures var n := PageAligned(e);
      n.addr + PAGE_SIZE * PageTotal(n) <= e.End() || PageTotal(n) == 0 <==> AdjustmentFits(e)
  {
    var q, r := e.length / PAGE_SIZE, e.length % PAGE_SIZE;
    var b, a := e.addr / PAGE_SIZE, e.addr % PAGE_SIZE;
    AdjustedLength(e, q, r, a, b);
    var n := PageAligned(e);
    if q * PAGE_SIZE + 2 * r < PAGE_SIZE {
      assert n.length / PAGE_SIZE == TWO64 / PAGE_SIZE - 1;
    } else if 2 * r >= PAGE_SIZE {
      assert n.length / PAGE_SIZE == q;
    } else {
      assert n.length / PAGE_SIZE == q - 1;
    }
  }
}

module EarlyFrames {
  import opened Words
  import opened MemoryMap
  import opened Bits
  import opened Frames
  import opened FrameRuns

  // The maps this code is written for: available ranges start on page
  // boundaries, lie below 4 GiB, and are sorted and disjoint. Reserved ranges
  // may lie anywhere.
  predicate ValidMap(entries: seq<Entry>) {
    && Sane(entries)
    && (forall i :: 0 <= i < |entries| && entries[i].Available() ==>
          entries[i].addr % PAGE_SIZE == 0 && entries[i].End() <= 0x1_0000_0000)
    && forall i, j :: 0 <= i < j < |entries| && entries[i].Available() && entries[j].Available() ==>
         entries[i].End() <= entries[j].addr
  }

  function Cleaned(entries: seq<Entry>): (t: seq<Entry>)
    ensures |t| == |entries| && forall i :: 0 <= i < |entries| ==> t[i] == Sanitized(entries, i)
  {
    seq(|entries|, i requires 0 <= i < |entries| => Sanitized(entries, i))
  }

  // Cleaning a valid map only shortens available ranges.
  lemma CleanedOnlyClips(entries: seq<Entry>, i: nat)
    requires ValidMap(entries) && i < |entries|
    ensures Sanitized(entries, i) == Clipped(entries, i)
    ensures var e := Sanitized(entries, i);
      e.addr == entries[i].addr && 0 <= e.length <= entries[i].length && e.kind == entries[i].kind
  {
  }

  // Only the addresses of reserved entries matter for the clipping of entry i.
  lemma {:induction false} ClippedLengthSame(e: Entry, s: seq<Entry>, t: seq<Entry>, n: nat)
    requires n <= |s| == |t|
    requires forall j :: 0 <= j < |s| ==> s[j].kind == t[j].kind && s[j].addr == t[j].addr
    ensures ClippedLength(e, s, n) == ClippedLength(e, t, n)
  {
    if n > 0 {
      ClippedLengthSame(e, s, t, n - 1);
    }
  }

  // sanitize_available
  method SanitizeAvailable(map_: array<Entry>, i: nat)
    requires i < map_.Length && Sane(map_[..])
    modifies map_
    ensures map_[..] == old(map_[..])[i := Sanitized(old(map_[..]), i)]
  {
    hide PageAligned;
    ghost var s := map_[..];
    var e := map_[i];
    assert s[i := s[i]] == s;
    if !e.Available() {
      return;
    }
    var lowest: Option<nat> := None;
    for c := 0 to map_.Length
      invariant map_[..] == s[i := e.(length := ClippedLength(e, s, c))]
      invariant match lowest
        case None => ClippedLength(e, s, c) == e.length
        case Some(l) => l < map_.Length && ClippedLength(e, s, c) == s[l].addr - e.addr && !s[l].Available()
    {
      if !map_[c].Available() {
        if map_[i].addr < map_[c].addr && map_[i].addr + map_[i].length > map_[c].addr {
          if lowest.None? || map_[lowest.value].addr > map_[c].addr {
            lowest := Some(c);
            map_[i] := map_[i].(length := map_[c].addr - map_[i].addr);
          }
        }
      }
    }
    AlignEntry(map_, i);
  }

  // The last lines of sanitize_available.
  method AlignEntry(map_: array<Entry>, i: nat)
    requires i < map_.Length
    modifies map_
    ensures map_[..] == old(map_[..])[i := PageAligned(old(map_[i]))]
  {
    if map_[i].addr % PAGE_SIZE != 0 {
      var addr := (map_[i].addr + (PAGE_SIZE - map_[i].addr % PAGE_SIZE)) % TWO64;
      map_[i] := map_[i].(addr := addr);
      var shorter := (map_[i].length - (PAGE_SIZE - (map_[i].addr + map_[i].length) % TWO64 % PAGE_SIZE)) % TWO64;
      map_[i] := map_[i].(length := shorter);
    }
  }

  // ---------- The frames to be handed out ----------

  const FRAMES: nat := 0x10_0000

  // Not below 1 MiB, and not in the kernel and the bitmap behind it.
  predicate Allowed(kernelStart: int, combinedEnd: int, f: nat) {
    f * PAGE_SIZE >= MB && !(kernelStart <= f * PAGE_SIZE < combinedEnd)
  }

  // Frame f lies wholly in the available entry e.
  predicate InEntry(e: Entry, f: nat) {
    e.Available() && e.addr <= f * PAGE_SIZE && f * PAGE_SIZE + PAGE_SIZE <= e.End()
  }

  ghost predicate Wanted(entries: seq<Entry>, n: nat, kernelStart: int, combinedEnd: int, f: nat)
    requires n <= |entries|
  {
    Allowed(kernelStart, combinedEnd, f) && exists i :: 0 <= i < n && InEntry(entries[i], f)
  }

  ghost function WantedFrames(entries: seq<Entry>, n: nat, kernelStart: int, combinedEnd: int): set<nat>
    requires n <= |entries|
  {
    set f: nat | f < FRAMES && Wanted(entries, n, kernelStart, combinedEnd, f)
  }

  // The frames of e that are handed out, up to its page number i.
  ghost function EntryFrames(e: Entry, i: nat, kernelStart: int, combinedEnd: int): set<nat> {
    set f: nat | f < FRAMES && e.addr / PAGE_SIZE <= f < e.addr / PAGE_SIZE + i && Allowed(kernelStart, combinedEnd, f)
  }

  // What the clearing loops keep track of.
  ghost predicate Progress(free: set<nat>, nextSet: bool, nextIndex: nat, nextOffset: nat, freePages: nat) {
    && freePages == |free|
    && nextOffset < 8
    && (!nextSet ==> free == {} && nextIndex == 0 && nextOffset == 0)
    && (nextSet ==> 8 * nextIndex + nextOffset in free && forall f :: f in free ==> 8 * nextIndex + nextOffset <= f)
  }

  lemma ProgressOneMore(free: set<nat>, nextSet: bool, ni: nat, no: nat, freePages: nat, index: nat, offset: nat)
    requires Progress(free, nextSet, ni, no, freePages) && offset < 8
    requires forall f :: f in free ==> f < 8 * index + offset
    ensures Progress(free + {8 * index + offset}, true, if nextSet then ni else index, if nextSet then no else offset, freePages + 1)
  {
    var g := 8 * index + offset;
    assert g !in free;
    assert |free + {g}| == |free| + 1;
  }

  // The inner loop, over the pages of one available entry.
  method ClearEntry(e: Entry, bitmap: array<bv8>, kernelStart: int, combinedEnd: int,
                    nextSet: bool, nextIndex: nat, nextOffset: nat, freePages: nat)
    returns (nextSet': bool, nextIndex': nat, nextOffset': nat, freePages': nat)
    requires e.Available() && 0 <= e.addr && e.addr % PAGE_SIZE == 0 && 0 <= e.length && e.End() <= 0x1_0000_0000
    requires bitmap.Length <= MAX_BITMAP && e.End() / PAGE_SIZE <= 8 * bitmap.Length
    requires Progress(FreeFrames(bitmap[..]), nextSet, nextIndex, nextOffset, freePages)
    requires forall f :: f in FreeFrames(bitmap[..]) ==> f < e.addr / PAGE_SIZE
    modifies bitmap
    ensures FreeFrames(bitmap[..]) ==
      old(FreeFrames(bitmap[..])) + EntryFrames(e, e.length / PAGE_SIZE, kernelStart, combinedEnd)
    ensures Progress(FreeFrames(bitmap[..]), nextSet', nextIndex', nextOffset', freePages')
  {
    hide FreeFrames, WithBit, WithoutBit, Allowed, Progress;
    nextSet', nextIndex', nextOffset', freePages' := nextSet, nextIndex, nextOffset, freePages;
    var npages := e.length / PAGE_SIZE;
    ghost var before := FreeFrames(bitmap[..]);
    ghost var first := e.addr / PAGE_SIZE;
    assert before + EntryFrames(e, 0, kernelStart, combinedEnd) == before;
    for i := 0 to npages
      invariant FreeFrames(bitmap[..]) == before + EntryFrames(e, i, kernelStart, combinedEnd)
      invariant Progress(FreeFrames(bitmap[..]), nextSet', nextIndex', nextOffset', freePages')
    {
      var pageAddr := e.addr + i * PAGE_SIZE;
      PageNumber(e.addr, e.length, i);
      EntryFramesStep(e, i, kernelStart, combinedEnd);
      if AllowedAddress(kernelStart, combinedEnd, pageAddr, first + i) {
        var index, offset := BitmapIndex(pageAddr), BitmapOffset(pageAddr);
        FrameOfOffsets(pageAddr);
        ghost var free := FreeFrames(bitmap[..]);
        ProgressOneMore(free, nextSet', nextIndex', nextOffset', freePages', index, offset);
        ClearBitGivesFrame(bitmap[..], index, offset);
        ghost var bits := bitmap[..];
        bitmap[index] := WithoutBit(bitmap[index], offset);
        assert bitmap[..] == bits[index := WithoutBit(bits[index], offset)];
        freePages' := freePages' + 1;
        if !nextSet' {
          nextIndex' := index;
          nextOffset' := offset;
          nextSet' := true;
        }
      }
    }
  }

  // The two `continue` tests, on the address of page number f.
  function AllowedAddress(kernelStart: int, combinedEnd: int, pageAddr: int, ghost f: nat): (r: bool)
    requires pageAddr == f * PAGE_SIZE
    ensures r == Allowed(kernelStart, combinedEnd, f)
  {
    !(kernelStart <= pageAddr && pageAddr < combinedEnd) && !(pageAddr < MB)
  }

  lemma PageNumber(addr: int, length: int, i: nat)
    requires 0 <= addr && addr % PAGE_SIZE == 0 && 0 <= length && addr + length <= 0x1_0000_0000 && i < length / PAGE_SIZE
    ensures 0 <= addr + i * PAGE_SIZE < 0x1_0000_0000
    ensures addr + i * PAGE_SIZE == (addr / PAGE_SIZE + i) * PAGE_SIZE
    ensures FrameNumber(addr + i * PAGE_SIZE) == addr / PAGE_SIZE + i
    ensures addr / PAGE_SIZE + i < (addr + length) / PAGE_SIZE
  {
  }

  lemma EntryFramesStep(e: Entry, i: nat, kernelStart: int, combinedEnd: int)
    requires 0 <= e.addr && e.addr / PAGE_SIZE + i < FRAMES
    ensures EntryFrames(e, i + 1, kernelStart, combinedEnd) ==
      EntryFrames(e, i, kernelStart, combinedEnd) +
      (if Allowed(kernelStart, combinedEnd, e.addr / PAGE_SIZE + i) then {e.addr / PAGE_SIZE + i} else {})
  {
  }

  // Frames of earlier entries lie below a later available entry.
  lemma EarlierBelow(entries: seq<Entry>, k: nat, kernelStart: int, combinedEnd: int)
    requires ValidMap(entries) && k < |entries| && entries[k].Available()
    ensures forall f :: f in WantedFrames(entries, k, kernelStart, combinedEnd) ==> f < entries[k].addr / PAGE_SIZE
  {
    forall f | f in WantedFrames(entries, k, kernelStart, combinedEnd)
      ensures f < entries[k].addr / PAGE_SIZE
    {
      var i :| 0 <= i < k && InEntry(entries[i], f);
      BelowPage(f, entries[k].addr);
    }
  }

  lemma BelowPage(f: nat, a: int)
    requires f * PAGE_SIZE + PAGE_SIZE <= a
    ensures f < a / PAGE_SIZE
  {
  }

  // The frames of an entry are its page numbers from the first one on.
  lemma EntryFramesAreInEntry(e: Entry, kernelStart: int, combinedEnd: int, f: nat)
    requires 0 <= e.addr && e.addr % PAGE_SIZE == 0 && 0 <= e.length && e.End() <= 0x1_0000_0000
    requires e.Available() && f < FRAMES
    ensures f in EntryFrames(e, e.length / PAGE_SIZE, kernelStart, combinedEnd)
      <==> Allowed(kernelStart, combinedEnd, f) && InEntry(e, f)
  {
    hide Allowed;
    var b, n := e.addr / PAGE_SIZE, e.length / PAGE_SIZE;
    assert e.addr == b * PAGE_SIZE;
    PagesIn(b, n, e.length, f);
  }

  lemma PagesIn(b: int, n: int, length: int, f: int)
    requires n * PAGE_SIZE <= length < (n + 1) * PAGE_SIZE
    ensures b <= f < b + n <==> b * PAGE_SIZE <= f * PAGE_SIZE && f * PAGE_SIZE + PAGE_SIZE <= b * PAGE_SIZE + length
  {
  }

  lemma WantedStep(entries: seq<Entry>, k: nat, kernelStart: int, combinedEnd: int)
    requires ValidMap(entries) && k < |entries|
    ensures WantedFrames(entries, k + 1, kernelStart, combinedEnd) ==
      if entries[k].Available() then
        WantedFrames(entries, k, kernelStart, combinedEnd) +
        EntryFrames(entries[k], entries[k].length / PAGE_SIZE, kernelStart, combinedEnd)
      else WantedFrames(entries, k, kernelStart, combinedEnd)
  {
    hide Allowed;
    var e := entries[k];
    if e.Available() {
      forall f: nat | f < FRAMES
        ensures f in EntryFrames(e, e.length / PAGE_SIZE, kernelStart, combinedEnd)
          <==> Allowed(kernelStart, combinedEnd, f) && InEntry(e, f)
      {
        EntryFramesAreInEntry(e, kernelStart, combinedEnd, f);
      }
    }
    hide EntryFrames, InEntry;
  }

  // The second pass over the map.
  method ClearFrames(entries: seq<Entry>, bitmap: array<bv8>, kernelStart: int, combinedEnd: int)
    returns (nextIndex: nat, nextOffset: nat, freePages: nat, nextSet: bool)
    requires ValidMap(entries) && bitmap.Length <= MAX_BITMAP
    requires forall i :: 0 <= i < |entries| && entries[i].Available() ==> entries[i].End() / PAGE_SIZE <= 8 * bitmap.Length
    requires FreeFrames(bitmap[..]) == {}
    modifies bitmap
    ensures FreeFrames(bitmap[..]) == WantedFrames(entries, |entries|, kernelStart, combinedEnd)
    ensures Progress(FreeFrames(bitmap[..]), nextSet, nextIndex, nextOffset, freePages)
  {
    hide FreeFrames, WantedFrames, EntryFrames, ValidMap, Progress;
    nextIndex, nextOffset, freePages, nextSet := 0, 0, 0, false;
    NoProgress();
    NothingWanted(entries, kernelStart, combinedEnd);
    for k := 0 to |entries|
      invariant FreeFrames(bitmap[..]) == WantedFrames(entries, k, kernelStart, combinedEnd)
      invariant Progress(FreeFrames(bitmap[..]), nextSet, nextIndex, nextOffset, freePages)
    {
      var e := entries[k];
      WantedStep(entries, k, kernelStart, combinedEnd);
      if e.Available() {
        EntryOfValidMap(entries, k);
        EarlierBelow(entries, k, kernelStart, combinedEnd);
        ghost var before := FreeFrames(bitmap[..]);
        nextSet, nextIndex, nextOffset, freePages :=
          ClearEntry(e, bitmap, kernelStart, combinedEnd, nextSet, nextIndex, nextOffset, freePages);
        assert FreeFrames(bitmap[..]) == before + EntryFrames(e, e.length / PAGE_SIZE, kernelStart, combinedEnd);
      }
    }
  }

  lemma EntryOfValidMap(entries: seq<Entry>, k: nat)
    requires ValidMap(entries) && k < |entries|
    ensures var e := entries[k]; 0 <= e.addr && 0 <= e.length && e.End() < TWO64
    ensures var e := entries[k]; e.Available() ==> e.addr % PAGE_SIZE == 0 && e.End() <= 0x1_0000_0000
  {
  }

  lemma NoProgress()
    ensures Progress({}, false, 0, 0, 0)
  {
  }

  lemma NothingWanted(entries: seq<Entry>, kernelStart: int, combinedEnd: int)
    ensures WantedFrames(entries, 0, kernelStart, combinedEnd) == {}
  {
  }

  // The first pass: clean every entry, find the kernel's entry and the end of
  // the last available one.
  method ScanMap(map_: array<Entry>, kernelStart: int, kernelSize: int)
    returns (kernelEntry: Option<nat>, lastAddr: int, lastSize: int)
    requires ValidMap(map_[..])
    modifies map_
    ensures map_[..] == Cleaned(old(map_[..]))
    ensures ValidMap(map_[..])
    ensures kernelEntry == KernelEntry(old(map_[..]), map_.Length, kernelStart, kernelSize)
    ensures lastAddr + lastSize == LastEnd(map_[..], map_.Length)
    ensures forall i :: 0 <= i < map_.Length && map_[i].Available() ==> map_[i].End() <= lastAddr + lastSize
    ensures 0 <= lastAddr && 0 <= lastSize && lastAddr + lastSize <= 0x1_0000_0000
  {
    ghost var entries := map_[..];
    kernelEntry, lastAddr, lastSize := None, 0, 0;
    for k := 0 to map_.Length
      invariant PartlyCleaned(entries, map_[..], k)
      invariant kernelEntry == KernelEntry(entries, k, kernelStart, kernelSize)
      invariant lastAddr + lastSize == LastEnd(map_[..], k)
      invariant 0 <= lastAddr && 0 <= lastSize && lastAddr + lastSize <= 0x1_0000_0000
      invariant forall i :: 0 <= i < k && map_[i].Available() ==> map_[i].End() <= lastAddr + lastSize
      invariant forall i :: k <= i < map_.Length && entries[i].Available() ==> lastAddr + lastSize <= entries[i].addr
    {
      hide ValidMap, Sanitized;
      if HoldsKernel(map_[k], kernelStart, kernelSize) {
        kernelEntry := Some(k);
      }
      CleanOne(entries, map_[..], k);
      LastEndSame(map_[..], map_[..][k := Sanitized(map_[..], k)], k);
      SanitizeAvailable(map_, k);
      if map_[k].Available() {
        lastAddr, lastSize := map_[k].addr, map_[k].length;
      }
    }
    assert map_[..] == Cleaned(entries);
    CleanedValid(entries);
  }

  // The end of the last available one of the first n entries.
  function LastEnd(entries: seq<Entry>, n: nat): int
    requires n <= |entries|
  {
    if n == 0 then 0 else if entries[n - 1].Available() then entries[n - 1].End() else LastEnd(entries, n - 1)
  }

  lemma {:induction false} LastEndSame(s: seq<Entry>, t: seq<Entry>, n: nat)
    requires n <= |s| == |t| && forall i :: 0 <= i < n ==> s[i] == t[i]
    ensures LastEnd(s, n) == LastEnd(t, n)
  {
    if n > 0 {
      LastEndSame(s, t, n - 1);
    }
  }

  // The last of the first n entries that seems to hold the kernel.
  function KernelEntry(entries: seq<Entry>, n: nat, kernelStart: int, kernelSize: int): (k: Option<nat>)
    requires n <= |entries|
    ensures k.Some? ==> k.value < n
  {
    if n == 0 then None
    else if HoldsKernel(entries[n - 1], kernelStart, kernelSize) then Some(n - 1)
    else KernelEntry(entries, n - 1, kernelStart, kernelSize)
  }

  predicate HoldsKernel(e: Entry, kernelStart: int, kernelSize: int) {
    kernelStart >= e.addr && e.length >= kernelSize
  }

  // The kernel lies wholly in the available entry e.
  predicate ContainsKernel(e: Entry, kernelStart: int, kernelSize: int) {
    e.Available() && e.addr <= kernelStart < e.End() && kernelStart + kernelSize <= e.End()
  }

  // No reserved entry behind entry i passes the test for the kernel's entry.
  predicate NoLaterDecoy(entries: seq<Entry>, i: nat, n: nat, kernelStart: int, kernelSize: int)
    requires n <= |entries|
  {
    forall j :: i < j < n && !entries[j].Available() ==> !HoldsKernel(entries[j], kernelStart, kernelSize)
  }

  lemma {:induction false} KernelEntryIsLast(entries: seq<Entry>, n: nat, kernelStart: int, kernelSize: int)
    requires n <= |entries|
    ensures var k := KernelEntry(entries, n, kernelStart, kernelSize);
      && (k.None? ==> forall j :: 0 <= j < n ==> !HoldsKernel(entries[j], kernelStart, kernelSize))
      && (k.Some? ==>
            && HoldsKernel(entries[k.value], kernelStart, kernelSize)
            && forall j :: k.value < j < n ==> !HoldsKernel(entries[j], kernelStart, kernelSize))
  {
    if n > 0 {
      KernelEntryIsLast(entries, n - 1, kernelStart, kernelSize);
    }
  }

  // The entry around the kernel is the one that is found exactly if no reserved
  // entry behind it starts at or before the kernel and is as long: neither the
  // end of an entry nor its kind is tested.
  lemma KernelEntryExactly(entries: seq<Entry>, k: nat, kernelStart: int, kernelSize: int)
    requires ValidMap(entries) && 0 <= kernelSize && k < |entries|
    ensures var found := KernelEntry(entries, |entries|, kernelStart, kernelSize);
      ContainsKernel(entries[k], kernelStart, kernelSize) ==>
        (found == Some(k) <==> NoLaterDecoy(entries, k, |entries|, kernelStart, kernelSize))
  {
    KernelEntryIsLast(entries, |entries|, kernelStart, kernelSize);
    if ContainsKernel(entries[k], kernelStart, kernelSize) && NoLaterDecoy(entries, k, |entries|, kernelStart, kernelSize) {
      forall j | k < j < |entries|
        ensures !HoldsKernel(entries[j], kernelStart, kernelSize)
      {
        assert entries[j].Available() ==> entries[k].End() <= entries[j].addr;
      }
    }
  }

  // So some available entry around the kernel is found exactly if there is one
  // with no such reserved entry behind it.
  lemma FoundContainsExactly(entries: seq<Entry>, kernelStart: int, kernelSize: int)
    requires ValidMap(entries) && 0 <= kernelSize
    ensures var found := KernelEntry(entries, |entries|, kernelStart, kernelSize);
      found.Some? && ContainsKernel(entries[found.value], kernelStart, kernelSize) <==>
      exists k: nat :: k < |entries| && KernelWithoutDecoy(entries, k, kernelStart, kernelSize)
  {
    var found := KernelEntry(entries, |entries|, kernelStart, kernelSize);
    if found.Some? && ContainsKernel(entries[found.value], kernelStart, kernelSize) {
      KernelEntryExactly(entries, found.value, kernelStart, kernelSize);
      assert KernelWithoutDecoy(entries, found.value, kernelStart, kernelSize);
    }
    if k: nat :| k < |entries| && KernelWithoutDecoy(entries, k, kernelStart, kernelSize) {
      KernelEntryExactly(entries, k, kernelStart, kernelSize);
    }
  }

  predicate KernelWithoutDecoy(entries: seq<Entry>, k: nat, kernelStart: int, kernelSize: int)
    requires k < |entries|
  {
    ContainsKernel(entries[k], kernelStart, kernelSize) && NoLaterDecoy(entries, k, |entries|, kernelStart, kernelSize)
  }

  const DECOY_MAP: seq<Entry> := [Entry(0x10_0000, 0x10_0000, AVAILABLE), Entry(0, 0x8_0000, 2)]

  // A valid map in which the reserved entry is taken for the kernel's.
  lemma WrongEntryFound()
    ensures ValidMap(DECOY_MAP) && ContainsKernel(DECOY_MAP[0], 0x10_0000, 0x1000)
    ensures KernelEntry(DECOY_MAP, 2, 0x10_0000, 0x1000) == Some(1)
  {
  }

  lemma CleanedValid(entries: seq<Entry>)
    requires ValidMap(entries)
    ensures ValidMap(Cleaned(entries))
  {
    forall i: nat | i < |entries|
      ensures var e := Sanitized(entries, i);
        e.addr == entries[i].addr && 0 <= e.length <= entries[i].length && e.kind == entries[i].kind
    {
      CleanedOnlyClips(entries, i);
    }
  }

  // Cleaning entry k of a partly cleaned map.
  lemma CleanOne(s: seq<Entry>, t: seq<Entry>, k: nat)
    requires ValidMap(s) && PartlyCleaned(s, t, k) && k < |s|
    ensures Sane(t) && Sanitized(t, k) == Sanitized(s, k)
    ensures PartlyCleaned(s, t[k := Sanitized(t, k)], k + 1)
    ensures var e := Sanitized(s, k);
      && e.addr == s[k].addr && 0 <= e.length <= s[k].length && e.Available() == s[k].Available()
      && (e.Available() ==> 0 <= e.addr && e.End() <= 0x1_0000_0000)
      && (forall i :: e.Available() && k < i < |s| && s[i].Available() ==> e.End() <= s[i].addr)
      && forall i :: 0 <= i < k && t[i].Available() && e.Available() ==> t[i].End() <= e.addr
  {
    forall i: nat | i < |s|
      ensures t[i].addr == s[i].addr && 0 <= t[i].length <= s[i].length && t[i].kind == s[i].kind
    {
      CleanedOnlyClips(s, i);
    }
    CleanedOnlyClips(s, k);
    ClippedLengthSame(s[k], s, t, |s|);
  }

  // The first k entries are cleaned, the others as they were.
  predicate PartlyCleaned(s: seq<Entry>, t: seq<Entry>, k: nat) {
    && |t| == |s|
    && (forall i :: 0 <= i < |s| && i < k ==> t[i] == Sanitized(s, i))
    && forall i :: k <= i < |s| ==> t[i] == s[i]
  }

  // ---------- init_frame_allocator ----------

  // The number of pages that hold n bytes.
  function PagesFor(n: int): int {
    (n + PAGE_SIZE - 1) / PAGE_SIZE
  }

  // The number of bytes of the bitmap of a cleaned map.
  function BitmapBytes(entries: seq<Entry>): int {
    (LastEnd(entries, |entries|) / PAGE_SIZE + 7) / 8
  }

  // The pages of the kernel and of the bitmap behind it.
  function CombinedPages(entries: seq<Entry>, kernelSize: int): int {
    PagesFor(kernelSize) + PagesFor(BitmapBytes(entries))
  }

  // The test of init_frame_allocator on the entry it has found.
  predicate LongEnough(e: Entry, combinedPages: int) {
    e.length / PAGE_SIZE >= combinedPages
  }

  // The pages from the start of the kernel on lie in its entry exactly if
  // there is room for them behind the part of the entry in front of the
  // kernel. The test leaves that part out: it is necessary, and sufficient for
  // a kernel at the start of its entry.
  lemma BitmapFitsExactly(e: Entry, kernelStart: int, combinedPages: nat)
    requires e.addr % PAGE_SIZE == 0 && kernelStart % PAGE_SIZE == 0 && e.addr <= kernelStart
    ensures var fits := kernelStart + PAGE_SIZE * combinedPages <= e.End();
      && (fits <==> (kernelStart - e.addr) / PAGE_SIZE + combinedPages <= e.length / PAGE_SIZE)
      && (fits ==> LongEnough(e, combinedPages))
      && (LongEnough(e, combinedPages) && kernelStart == e.addr ==> fits)
  {
    WholePagesIn((kernelStart - e.addr) / PAGE_SIZE + combinedPages, e.length);
    FrontPages(e.addr / PAGE_SIZE, kernelStart / PAGE_SIZE);
  }

  lemma FrontPages(a: int, b: int)
    ensures (b * PAGE_SIZE - a * PAGE_SIZE) / PAGE_SIZE == b - a
  {
    assert b * PAGE_SIZE - a * PAGE_SIZE == (b - a) * PAGE_SIZE;
  }

  lemma WholePagesIn(pages: int, length: int)
    ensures PAGE_SIZE * pages <= length <==> pages <= length / PAGE_SIZE
  {
  }

  const SHORT_MAP: seq<Entry> := [Entry(0x10_0000, 0x4000, AVAILABLE)]

  // A valid map whose only entry holds the kernel and passes the test, but not
  // the bitmap behind the kernel.
  lemma BitmapBehindEntry()
    ensures ValidMap(SHORT_MAP) && Cleaned(SHORT_MAP) == SHORT_MAP
    ensures KernelEntry(SHORT_MAP, 1, 0x10_3000, 0x1000) == Some(0) && ContainsKernel(SHORT_MAP[0], 0x10_3000, 0x1000)
    ensures var pages := CombinedPages(SHORT_MAP, 0x1000);
      LongEnough(SHORT_MAP[0], pages) && 0x10_3000 + PAGE_SIZE * pages > SHORT_MAP[0].End()
  {
    assert LastEnd(SHORT_MAP, 1) == 0x10_4000;
    assert ClippedLength(SHORT_MAP[0], SHORT_MAP, 0) == ClippedLength(SHORT_MAP[0], SHORT_MAP, 1) == 0x4000;
  }

  // The kernel lies page-aligned at kernelStart; it and the largest possible
  // bitmap end below 4 GiB.
  predicate ValidKernel(kernelStart: int, kernelSize: int) {
    && 0 <= kernelStart && kernelStart % PAGE_SIZE == 0 && 0 <= kernelSize
    && kernelStart + kernelSize + 40 * PAGE_SIZE < 0x1_0000_0000
  }

  method InitFrameAllocator(map_: array<Entry>, kernelStart: Word, kernelSize: Word)
    returns (pmm: FrameAllocator?, freePages: nat, combinedEnd: int)
    requires ValidMap(map_[..]) && ValidKernel(kernelStart, kernelSize)
    modifies map_
    ensures map_[..] == Cleaned(old(map_[..]))
    ensures combinedEnd == kernelStart + PAGE_SIZE * CombinedPages(map_[..], kernelSize)
    ensures combinedEnd == kernelStart + 4096 * ((kernelSize + 4095) / 4096 + (BitmapBytes(map_[..]) + 4095) / 4096)
    ensures pmm != null <==>
      var k := KernelEntry(old(map_[..]), map_.Length, kernelStart, kernelSize);
      k.Some? && LongEnough(map_[k.value], CombinedPages(map_[..], kernelSize))
    ensures pmm != null ==>
      && pmm.bitmap.Length == BitmapBytes(map_[..]) == (LastEnd(map_[..], map_.Length) / 4096 + 7) / 8
      && fresh(pmm) && fresh(pmm.bitmap)
      && pmm.Free() == WantedFrames(map_[..], map_.Length, kernelStart, combinedEnd)
      && (forall f: nat :: f in pmm.Free() <==> Cleared(map_[..], kernelStart, kernelSize, f))
      && freePages == |pmm.Free()|
      && (pmm.Free() != {} ==> pmm.Valid() && pmm.State().next == Lowest(pmm.Free()))
      && (pmm.Free() == {} ==> pmm.nextIndex == 0 && pmm.nextOffset == 0)
  {
    hide FreeFrames, WantedFrames, ValidMap, Lowest, BitmapBytes, CombinedPages, DivCeil, LastEnd, Cleaned, KernelEntry, Cleared;
    var kernelPageCount := DivCeil(kernelSize, PAGE_SIZE);
    var kernelEntry, lastAddr, lastSize := ScanMap(map_, kernelStart, kernelSize);
    var totalSize := lastAddr + lastSize;
    var pageCount := totalSize / PAGE_SIZE;
    Counts(map_[..], kernelSize, pageCount);
    SizesInNumbers(map_[..], kernelSize);
    var bitmapSize := DivCeil(pageCount, 8);
    var bitmapPageCount := DivCeil(bitmapSize, PAGE_SIZE);
    var combinedPageCount := kernelPageCount + bitmapPageCount;
    combinedEnd := kernelStart + PAGE_SIZE * combinedPageCount;
    pmm, freePages := null, 0;
    if kernelEntry.None? || map_[kernelEntry.value].length / PAGE_SIZE < combinedPageCount {
      return;
    }
    var bitmap := FullBitmap(bitmapSize);
    forall i | 0 <= i < map_.Length && map_[i].Available()
      ensures map_[i].End() / PAGE_SIZE <= 8 * bitmap.Length
    {
      FewerPages(map_[i].End(), totalSize);
    }
    var nextIndex, nextOffset, free, nextSet := ClearFrames(map_[..], bitmap, kernelStart, combinedEnd);
    pmm := new FrameAllocator(bitmap, nextIndex, nextOffset);
    freePages := free;
    FirstIsLowest(bitmap[..], nextSet, nextIndex, nextOffset, free);
    WantedIsCleared(map_[..], kernelStart, kernelSize, combinedEnd);
  }

  // In numbers: frame f lies wholly in an available entry of the cleaned map,
  // not below 1 MiB, and not in the pages of the kernel and of the bitmap.
  ghost predicate Cleared(entries: seq<Entry>, kernelStart: int, kernelSize: int, f: nat) {
    var kernelPages, bitmapPages := (kernelSize + 4095) / 4096, (BitmapBytes(entries) + 4095) / 4096;
    && f * 4096 >= 0x10_0000
    && !(kernelStart <= f * 4096 < kernelStart + 4096 * (kernelPages + bitmapPages))
    && exists i :: 0 <= i < |entries| && WholeIn(entries[i], f)
  }

  predicate WholeIn(e: Entry, f: nat) {
    e.kind == 1 && e.addr <= f * 4096 && f * 4096 + 4096 <= e.addr + e.length
  }

  lemma WantedIsCleared(entries: seq<Entry>, kernelStart: int, kernelSize: int, combinedEnd: int)
    requires ValidMap(entries) && combinedEnd == kernelStart + PAGE_SIZE * CombinedPages(entries, kernelSize)
    ensures forall f: nat ::
      (f in WantedFrames(entries, |entries|, kernelStart, combinedEnd) <==> Cleared(entries, kernelStart, kernelSize, f))
  {
    hide BitmapBytes;
    forall f: nat
      ensures f in WantedFrames(entries, |entries|, kernelStart, combinedEnd) <==>
              Cleared(entries, kernelStart, kernelSize, f)
    {
      assert forall i :: 0 <= i < |entries| ==> (WholeIn(entries[i], f) <==> InEntry(entries[i], f));
      if i :| 0 <= i < |entries| && WholeIn(entries[i], f) {
        assert f * 4096 + 4096 <= 0x1_0000_0000;
      }
    }
  }

  predicate ByteIn(e: Entry, b: int) {
    e.addr <= b < e.addr + e.length
  }

  // Byte b belongs to low memory, to the kernel, or to the bitmap, which starts
  // on the first page behind the kernel.
  predicate Withheld(bitmapBytes: int, kernelStart: int, kernelSize: int, b: int) {
    var bitmap := kernelStart + 4096 * ((kernelSize + 4095) / 4096);
    b < 0x10_0000 || kernelStart <= b < kernelStart + kernelSize || bitmap <= b < bitmap + bitmapBytes
  }

  // So no byte of such a frame is withheld, and each lies in an available entry.
  lemma ClearedInBytes(entries: seq<Entry>, kernelStart: int, kernelSize: int, f: nat, b: int)
    requires Cleared(entries, kernelStart, kernelSize, f) && f * 4096 <= b < f * 4096 + 4096
    requires Sane(entries) && kernelStart % 4096 == 0 && 0 <= kernelSize
    ensures !Withheld(BitmapBytes(entries), kernelStart, kernelSize, b)
    ensures exists i :: 0 <= i < |entries| && entries[i].kind == 1 && ByteIn(entries[i], b)
  {
    hide BitmapBytes;
    var i :| 0 <= i < |entries| && WholeIn(entries[i], f);
    assert entries[i].kind == 1 && ByteIn(entries[i], b);
    var bytes := BitmapBytes(entries);
    BitmapNotNegative(entries);
    CeilingHolds(kernelSize);
    CeilingHolds(bytes);
    PageOutside(kernelStart / 4096, (kernelSize + 4095) / 4096 + (bytes + 4095) / 4096, f, b);
  }

  lemma BitmapNotNegative(entries: seq<Entry>)
    requires Sane(entries)
    ensures BitmapBytes(entries) >= 0
  {
    LastEndNotNegative(entries, |entries|);
  }

  lemma {:induction false} LastEndNotNegative(entries: seq<Entry>, n: nat)
    requires Sane(entries) && n <= |entries|
    ensures LastEnd(entries, n) >= 0
  {
    if n > 0 {
      LastEndNotNegative(entries, n - 1);
    }
  }

  lemma PageOutside(q: int, n: int, f: int, b: int)
    requires !(q * 4096 <= f * 4096 < q * 4096 + 4096 * n) && f * 4096 <= b < f * 4096 + 4096
    ensures !(q * 4096 <= b < q * 4096 + 4096 * n)
  {
  }

  lemma CeilingHolds(n: int)
    ensures n <= 4096 * ((n + 4095) / 4096)
    ensures n >= 0 ==> (n + 4095) / 4096 >= 0
  {
  }

  // The bitmap with all bits set.
  method FullBitmap(bytes: nat) returns (bitmap: array<bv8>)
    ensures fresh(bitmap) && bitmap.Length == bytes && FreeFrames(bitmap[..]) == {}
  {
    bitmap := new bv8[bytes];
    for i := 0 to bytes
      invariant forall j :: 0 <= j < i ==> bitmap[j] == 0xFF
    {
      bitmap[i] := 0xFF;
    }
    NoneFree(bitmap[..]);
  }

  lemma SizesInNumbers(entries: seq<Entry>, kernelSize: int)
    ensures BitmapBytes(entries) == (LastEnd(entries, |entries|) / 4096 + 7) / 8
    ensures CombinedPages(entries, kernelSize) == (kernelSize + 4095) / 4096 + (BitmapBytes(entries) + 4095) / 4096
  {
  }

  // No addition wraps on the way to the number of pages.
  lemma Counts(entries: seq<Entry>, kernelSize: Word, pageCount: Word)
    requires kernelSize + 40 * PAGE_SIZE < 0x1_0000_0000 && pageCount <= FRAMES
    requires pageCount == LastEnd(entries, |entries|) / PAGE_SIZE
    ensures var bytes := DivCeil(pageCount, 8);
      && bytes == BitmapBytes(entries) && bytes <= MAX_BITMAP && pageCount <= 8 * bytes
      && DivCeil(kernelSize, PAGE_SIZE) + DivCeil(bytes, PAGE_SIZE) == CombinedPages(entries, kernelSize)
      && 0 <= CombinedPages(entries, kernelSize) < 0x1_0000_0000
  {
    hide LastEnd;
    CeilingBounds(kernelSize, PAGE_SIZE);
    CeilingBounds(pageCount, 8);
    CeilingBounds(DivCeil(pageCount, 8), PAGE_SIZE);
  }

  lemma CeilingBounds(a: Word, b: Word)
    requires b > 0 && a + b < 0x1_0000_0000
    ensures a <= DivCeil(a, b) * b < a + b && DivCeil(a, b) == (a + b - 1) / b
  {
    var n := a + b - 1;
    assert DivCeil(a, b) == n / b;
    assert n == b * (n / b) + n % b;
  }

  lemma FewerPages(a: int, b: int)
    requires a <= b
    ensures a / PAGE_SIZE <= b / PAGE_SIZE
  {
  }

  lemma NoneFree(bits: seq<bv8>)
    requires forall j :: 0 <= j < |bits| ==> bits[j] == 0xFF
    ensures FreeFrames(bits) == {}
  {
    forall f: nat | FrameFree(bits, f)
      ensures false
    {
      FullByte(bits[f / 8]);
    }
  }

  lemma FirstIsLowest(bits: seq<bv8>, nextSet: bool, nextIndex: nat, nextOffset: nat, freePages: nat)
    requires Progress(FreeFrames(bits), nextSet, nextIndex, nextOffset, freePages)
    ensures FreeFrames(bits) != {} ==>
      nextIndex < |bits| && Lowest(FreeFrames(bits)) == Some(8 * nextIndex + nextOffset)
  {
  }

  // ---------- Reserved memory ----------

  // No reserved range starts at or before an available one and reaches into it.
  predicate NoOverhang(entries: seq<Entry>) {
    forall i, j :: 0 <= i < |entries| && 0 <= j < |entries| ==> !Overhangs(entries[j], entries[i])
  }

  predicate Overhangs(c: Entry, e: Entry) {
    e.Available() && !c.Available() && c.length > 0 && c.addr <= e.addr < c.End()
  }

  // Byte b is not withheld and not reserved, but available.
  ghost predicate HarmlessByte(entries: seq<Entry>, kernelStart: int, kernelSize: int, b: int) {
    && !Withheld(BitmapBytes(Cleaned(entries)), kernelStart, kernelSize, b)
    && (forall j :: 0 <= j < |entries| && entries[j].kind != 1 ==> !ByteIn(entries[j], b))
    && exists i :: 0 <= i < |entries| && entries[i].kind == 1 && ByteIn(entries[i], b)
  }

  // All bytes of frame f are harmless.
  ghost predicate Harmless(entries: seq<Entry>, kernelStart: int, kernelSize: int, f: nat) {
    forall b :: f * 4096 <= b < f * 4096 + 4096 ==> HarmlessByte(entries, kernelStart, kernelSize, b)
  }

  // The frames that init_frame_allocator frees for this map.
  ghost function FreedFrames(entries: seq<Entry>, kernelStart: int, kernelSize: int): set<nat> {
    WantedFrames(Cleaned(entries), |entries|, kernelStart,
                 kernelStart + PAGE_SIZE * CombinedPages(Cleaned(entries), kernelSize))
  }

  lemma WantedIsHarmless(entries: seq<Entry>, kernelStart: int, kernelSize: int, f: nat)
    requires ValidMap(entries) && NoOverhang(entries) && ValidKernel(kernelStart, kernelSize)
    requires f in FreedFrames(entries, kernelStart, kernelSize)
    ensures Harmless(entries, kernelStart, kernelSize, f)
  {
    hide WantedFrames, Cleared, Withheld, BitmapBytes, CombinedPages, LastEnd;
    var t := Cleaned(entries);
    CleanedValid(entries);
    WantedIsCleared(t, kernelStart, kernelSize, kernelStart + PAGE_SIZE * CombinedPages(t, kernelSize));
    forall b | f * 4096 <= b < f * 4096 + 4096
      ensures HarmlessByte(entries, kernelStart, kernelSize, b)
    {
      ClearedInBytes(t, kernelStart, kernelSize, f, b);
      var i :| 0 <= i < |t| && t[i].kind == 1 && ByteIn(t[i], b);
      CleanedOnlyClips(entries, i);
      assert ByteIn(entries[i], b);
      forall j | 0 <= j < |entries| && entries[j].kind != 1
        ensures !ByteIn(entries[j], b)
      {
        if entries[j].length > 0 {
          ClippingExcludesExactly(entries, i, j);
          assert !Overhangs(entries[j], entries[i]);
        }
      }
    }
  }

  // From the state that init_frame_allocator leaves, in every run of get_page
  // and of free_page on frames handed out, no byte of a frame handed out is
  // reserved, below 1 MiB, or part of the kernel or the bitmap.
  lemma ReservedNeverHandedOut(entries: seq<Entry>, kernelStart: int, kernelSize: int, ops: seq<FrameOp>)
    requires ValidMap(entries) && NoOverhang(entries) && ValidKernel(kernelStart, kernelSize)
    requires var free := FreedFrames(entries, kernelStart, kernelSize);
      AllowedRun(Holding(Pool(free, Lowest(free)), {}), ops)
    ensures var free := FreedFrames(entries, kernelStart, kernelSize);
      var end := Run(Holding(Pool(free, Lowest(free)), {}), ops);
      && (forall f :: f in end.out ==> Harmless(entries, kernelStart, kernelSize, f))
      && (end.pool.next.Some? ==> Harmless(entries, kernelStart, kernelSize, end.pool.next.value))
  {
    hide FreedFrames, Harmless, ValidMap, NoOverhang, Cleaned, ValidKernel;
    var free := FreedFrames(entries, kernelStart, kernelSize);
    var start := Holding(Pool(free, Lowest(free)), {});
    RunConserves(start, ops);
    forall f | f in free
      ensures Harmless(entries, kernelStart, kernelSize, f)
    {
      WantedIsHarmless(entries, kernelStart, kernelSize, f);
    }
  }
}
