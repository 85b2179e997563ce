// The physical frame allocator: one bit per 4 KiB frame, set when in use.
module Bits {
  // 1 << o on a byte.
  function Mask(o: nat): bv8
    requires o < 8
  {
    (1 as bv8) << (o as bv4)
  }

  predicate IsSet(b: bv8, o: nat)
    requires o < 8
  {
    b & Mask(o) != 0
  }

  // b |= 1 << o and b &= ~(1 << o)
  function WithBit(b: bv8, o: nat): bv8
    requires o < 8
  {
    b | Mask(o)
  }

  function WithoutBit(b: bv8, o: nat): bv8
    requires o < 8
  {
    b & !Mask(o)
  }

  // Bit o has the value of the o-th power of 2.
  lemma MaskValues()
    ensures Mask(0) == 0x01 && Mask(1) == 0x02 && Mask(2) == 0x04 && Mask(3) == 0x08
    ensures Mask(4) == 0x10 && Mask(5) == 0x20 && Mask(6) == 0x40 && Mask(7) == 0x80
  {
  }

  lemma SetBit(b: bv8, o: nat, k: nat)
    requires o < 8 && k < 8
    ensures IsSet(WithBit(b, o), k) <==> k == o || IsSet(b, k)
  {
  }

  lemma ClearBit(b: bv8, o: nat, k: nat)
    requires o < 8 && k < 8
    ensures IsSet(WithoutBit(b, o), k) <==> k != o && IsSet(b, k)
  {
  }

  lemma FullByte(b: bv8)
    ensures b == 0xFF <==> forall k: nat :: k < 8 ==> IsSet(b, k)
  {
    if forall k: nat :: k < 8 ==> IsSet(b, k) {
      assert IsSet(b, 0) && IsSet(b, 1) && IsSet(b, 2) && IsSet(b, 3);
      assert IsSet(b, 4) && IsSet(b, 5) && IsSet(b, 6) && IsSet(b, 7);
    }
  }
}

// The allocator as a state machine on frame numbers, and its runs.
module FrameRuns {
  import opened Words

  ghost function Lowest(s: set<nat>): (r: Option<nat>)
    ensures r.None? <==> s == {}
    ensures r.Some? ==> r.value in s && forall f :: f in s ==> r.value <= f
  {
    if s == {} then None
    else
      var x :| x in s;
      var r := Lowest(s - {x});
      assert forall f :: f in s ==> f == x || f in s - {x};
      if r.None? || x < r.value then Some(x) else r
  }

  // The free frames, and the one that is handed out next.
  datatype Pool = Pool(free: set<nat>, next: Option<nat>) {
    ghost predicate Valid() {
      if next.None? then free == {} else next.value in free
    }

    ghost function Get(): Pool
      requires next.Some?
    {
      Pool(free - {next.value}, Lowest(free - {next.value}))
    }

    ghost function Put(f: nat): Pool {
      Pool(free + {f}, Some(f))
    }
  }

  datatype FrameOp = Get | Put(frame: nat)

  // A pool and the frames handed out and not given back.
  datatype Holding = Holding(pool: Pool, out: set<nat>)

  ghost predicate Allowed(h: Holding, op: FrameOp) {
    match op
    case Get => h.pool.next.Some?
    case Put(f) => f in h.out
  }

  ghost function Step(h: Holding, op: FrameOp): Holding
    requires Allowed(h, op)
  {
    match op
    case Get => Holding(h.pool.Get(), h.out + {h.pool.next.value})
    case Put(f) => Holding(h.pool.Put(f), h.out - {f})
  }

  ghost predicate AllowedRun(h: Holding, ops: seq<FrameOp>)
    decreases |ops|
  {
    ops == [] || (Allowed(h, ops[0]) && AllowedRun(Step(h, ops[0]), ops[1..]))
  }

  ghost function Run(h: Holding, ops: seq<FrameOp>): Holding
    requires AllowedRun(h, ops)
    decreases |ops|
  {
    if ops == [] then h else Run(Step(h, ops[0]), ops[1..])
  }

  ghost predicate Consistent(h: Holding) {
    h.pool.Valid() && h.pool.free !! h.out
  }

  // Frames are conserved over every run: none appears, none is lost, and none
  // is free and handed out at once. So what get_page returns is never still
  // outstanding, and is one of the frames that were free or out at the start.
  lemma {:induction false} RunConserves(h: Holding, ops: seq<FrameOp>)
    requires Consistent(h) && AllowedRun(h, ops)
    ensures var end := Run(h, ops);
      && Consistent(end) && end.pool.free + end.out == h.pool.free + h.out
      && (end.pool.next.Some? ==> end.pool.next.value !in end.out && end.pool.next.value in h.pool.free + h.out)
    decreases |ops|
  {
    if ops != [] {
      RunConserves(Step(h, ops[0]), ops[1..]);
    }
  }

  // Without frees exactly as many calls of get_page succeed as frames are free.
  lemma {:induction false} ExactlyAllFrames(h: Holding, ops: seq<FrameOp>)
    requires Consistent(h) && forall i :: 0 <= i < |ops| ==> ops[i] == Get
    ensures AllowedRun(h, ops) <==> |ops| <= |h.pool.free|
    ensures AllowedRun(h, ops) ==> |Run(h, ops).out| == |h.out| + |ops|
    decreases |ops|
  {
    if ops != [] && h.pool.next.Some? {
      ExactlyAllFrames(Step(h, Get), ops[1..]);
    }
  }
}

module Frames {
  import opened Words
  import opened Bits
  import opened FrameRuns

  predicate FrameFree(bits: seq<bv8>, f: nat) {
    f < 8 * |bits| && !IsSet(bits[f / 8], f % 8)
  }

  ghost function FreeFrames(bits: seq<bv8>): set<nat> {
    set f: nat | f < 8 * |bits| && FrameFree(bits, f)
  }

  // The bit of frame f is set.
  predicate InUse(bits: seq<bv8>, f: nat)
    requires f < 8 * |bits|
  {
    bits[f / 8] & Mask(f % 8) != 0
  }

  // Byte index and bit offset name the first clear bit, or the end if all are set.
  ghost predicate FirstClear(bits: seq<bv8>, index: nat, offset: nat) {
    if index < |bits| then
      && offset < 8 && !InUse(bits, 8 * index + offset)
      && forall f: nat :: f < 8 * index + offset ==> InUse(bits, f)
    else index == |bits| && forall f: nat :: f < 8 * |bits| ==> InUse(bits, f)
  }

  // The bit of this frame has the given value, and the others are as before.
  ghost predicate OneChanged(bits: seq<bv8>, bits': seq<bv8>, frame: nat, used: bool) {
    && |bits'| == |bits|
    && forall f: nat :: f < 8 * |bits| ==> InUse(bits', f) == if f == frame then used else InUse(bits, f)
  }

  lemma LowestIsFirst(bits: seq<bv8>, i: nat, o: nat)
    requires i <= |bits| && forall j :: 0 <= j < i ==> bits[j] == 0xFF
    requires i < |bits| ==> o < 8 && !IsSet(bits[i], o) && forall k: nat :: k < o ==> IsSet(bits[i], k)
    ensures FirstClear(bits, i, o)
  {
    hide Mask;
    forall f: nat | f < 8 * |bits| && (i < |bits| ==> f < 8 * i + o)
      ensures InUse(bits, f)
    {
      if f / 8 < i {
        FullByte(bits[f / 8]);
      }
      assert IsSet(bits[f / 8], f % 8);
    }
  }

  lemma InUseIsSet(bits: seq<bv8>, f: nat)
    requires f < 8 * |bits|
    ensures InUse(bits, f) <==> IsSet(bits[f / 8], f % 8)
  {
  }

  lemma SameFrame(i: nat, o: nat, f: nat)
    requires o < 8
    ensures f == 8 * i + o <==> f / 8 == i && f % 8 == o
  {
  }

  lemma OneMoreInUse(bits: seq<bv8>, i: nat, o: nat)
    requires i < |bits| && o < 8
    ensures OneChanged(bits, bits[i := WithBit(bits[i], o)], 8 * i + o, true)
  {
    hide WithBit, IsSet, InUse;
    var bits' := bits[i := WithBit(bits[i], o)];
    forall f: nat | f < 8 * |bits|
      ensures InUse(bits', f) == if f == 8 * i + o then true else InUse(bits, f)
    {
      InUseIsSet(bits, f);
      InUseIsSet(bits', f);
      SameFrame(i, o, f);
      SetBit(bits[i], o, f % 8);
    }
  }

  lemma OneLessInUse(bits: seq<bv8>, i: nat, o: nat)
    requires i < |bits| && o < 8
    ensures OneChanged(bits, bits[i := WithoutBit(bits[i], o)], 8 * i + o, false)
  {
    hide WithoutBit, IsSet, InUse;
    var bits' := bits[i := WithoutBit(bits[i], o)];
    forall f: nat | f < 8 * |bits|
      ensures InUse(bits', f) == if f == 8 * i + o then false else InUse(bits, f)
    {
      InUseIsSet(bits, f);
      InUseIsSet(bits', f);
      SameFrame(i, o, f);
      ClearBit(bits[i], o, f % 8);
    }
  }

  // The size of a set of frames, under a name of its own to keep proofs about
  // frame budgets apart from proofs about which frames are free.
  ghost function Count(s: set<nat>): nat {
    |s|
  }

  lemma SetBitTakesFrame(bits: seq<bv8>, i: nat, o: nat)
    requires i < |bits| && o < 8
    ensures FreeFrames(bits[i := WithBit(bits[i], o)]) == FreeFrames(bits) - {8 * i + o}
  {
    var bits' := bits[i := WithBit(bits[i], o)];
    forall f: nat | f < 8 * |bits|
      ensures FrameFree(bits', f) <==> FrameFree(bits, f) && f != 8 * i + o
    {
      SetBit(bits[i], o, f % 8);
      hide IsSet, WithBit, WithoutBit;
    }
  }

  lemma ClearBitGivesFrame(bits: seq<bv8>, i: nat, o: nat)
    requires i < |bits| && o < 8
    ensures FreeFrames(bits[i := WithoutBit(bits[i], o)]) == FreeFrames(bits) + {8 * i + o}
  {
    var bits' := bits[i := WithoutBit(bits[i], o)];
    forall f: nat | f < 8 * |bits|
      ensures FrameFree(bits', f) <==> FrameFree(bits, f) || f == 8 * i + o
    {
      ClearBit(bits[i], o, f % 8);
      hide IsSet, WithBit, WithoutBit;
    }
  }

  // first_zero_in_byte
  method FirstZeroInByte(b: bv8) returns (o: nat)
    ensures o <= 8
    ensures o == 8 <==> b == 0xFF
    ensures o < 8 ==> !IsSet(b, o) && forall k: nat :: k < o ==> IsSet(b, k)
  {
    FullByte(b);
    o := 8;
    if b == 0xFF {
      return;
    }
    for i := 0 to 8
      invariant forall k: nat :: k < i ==> IsSet(b, k)
    {
      if !IsSet(b, i) {
        return i;
      }
    }
  }

  // physaddr_to_offsets and offsets_to_physaddr
  function BitmapIndex(physaddr: Word): nat {
    physaddr / PAGE_SIZE / 8
  }

  function BitmapOffset(physaddr: Word): nat {
    physaddr / PAGE_SIZE % 8
  }

  function OffsetsToPhysaddr(index: nat, offset: nat): Word {
    (PAGE_SIZE * (index * 8 + offset)) % 0x1_0000_0000
  }

  function FrameNumber(physaddr: Word): nat {
    physaddr / PAGE_SIZE
  }

  lemma FrameOfOffsets(physaddr: Word)
    ensures 8 * BitmapIndex(physaddr) + BitmapOffset(physaddr) == FrameNumber(physaddr)
    ensures BitmapOffset(physaddr) < 8
  {
  }

  // The bitmap of the whole 4 GiB has 0x20000 bytes.
  const MAX_BITMAP: nat := 0x2_0000

  lemma OffsetsRoundTrip(index: nat, offset: nat)
    requires index < MAX_BITMAP && offset < 8
    ensures var p := OffsetsToPhysaddr(index, offset);
      && p == PAGE_SIZE * (8 * index + offset)
      && p % PAGE_SIZE == 0 && p / PAGE_SIZE == 8 * index + offset
      && BitmapIndex(p) == index && BitmapOffset(p) == offset
  {
  }

  // The global pmm.
  class FrameAllocator {
    const bitmap: array<bv8>
    var nextIndex: nat
    var nextOffset: nat

    constructor (bitmap: array<bv8>, nextIndex: nat, nextOffset: nat)
      ensures this.bitmap == bitmap && this.nextIndex == nextIndex && this.nextOffset == nextOffset
    {
      this.bitmap := bitmap;
      this.nextIndex := nextIndex;
      this.nextOffset := nextOffset;
    }

    ghost function Free(): set<nat>
      reads bitmap
    {
      FreeFrames(bitmap[..])
    }

    ghost function FreeCount(): nat
      reads bitmap
    {
      Count(Free())
    }

    ghost function State(): Pool
      reads this, bitmap
    {
      Pool(Free(), if nextIndex < bitmap.Length then Some(8 * nextIndex + nextOffset) else None)
    }

    // next names a clear bit, or no bit is clear.
    ghost predicate Valid()
      reads this, bitmap
    {
      && bitmap.Length <= MAX_BITMAP
      && nextOffset < 8
      && nextIndex <= bitmap.Length
      && State().Valid()
    }

    method GetPageState(physaddr: Word) returns (used: bool)
      requires BitmapIndex(physaddr) < bitmap.Length
      ensures used <==> FrameNumber(physaddr) !in Free()
      ensures used <==> InUse(bitmap[..], physaddr / 4096)
    {
      var index, offset := BitmapIndex(physaddr), BitmapOffset(physaddr);
      used := IsSet(bitmap[index], offset);
    }

    // get_page writes to the bitmap before any check, so a frame must be left.
    method GetPage() returns (page: Word)
      requires Valid() && nextIndex < bitmap.Length
      modifies this, bitmap
      ensures Valid()
      ensures page == PAGE_SIZE * old(State()).next.value
      ensures State() == old(State()).Get()
      ensures page == 4096 * (8 * old(nextIndex) + old(nextOffset))
      ensures OneChanged(old(bitmap[..]), bitmap[..], 8 * old(nextIndex) + old(nextOffset), true)
      ensures FirstClear(bitmap[..], nextIndex, nextOffset)
    {
      hide FreeFrames, FrameFree, WithBit, WithoutBit, IsSet, Lowest, OffsetsToPhysaddr, OneChanged, FirstClear;
      ghost var before := bitmap[..];
      page := OffsetsToPhysaddr(nextIndex, nextOffset);
      OffsetsRoundTrip(nextIndex, nextOffset);
      SetBitTakesFrame(bitmap[..], nextIndex, nextOffset);
      bitmap[nextIndex] := WithBit(bitmap[nextIndex], nextOffset);
      assert bitmap[..] == old(bitmap[..])[nextIndex := WithBit(old(bitmap[nextIndex]), nextOffset)];

      var i, o := 0, nextOffset;
      while i < bitmap.Length
        invariant i <= bitmap.Length && o == nextOffset
        invariant forall j :: 0 <= j < i ==> bitmap[j] == 0xFF
      {
        if bitmap[i] != 0xFF {
          o := FirstZeroInByte(bitmap[i]);
          break;
        }
        i := i + 1;
      }
      LowestIsNext(bitmap[..], i, o);
      LowestIsFirst(bitmap[..], i, o);
      OneMoreInUse(before, nextIndex, nextOffset);
      assert bitmap[..] == before[nextIndex := WithBit(before[nextIndex], nextOffset)];
      nextIndex := i;
      nextOffset := o;
    }

    method FreePage(physaddr: Word)
      requires Valid() && BitmapIndex(physaddr) < bitmap.Length
      modifies this, bitmap
      ensures Valid()
      ensures State() == old(State()).Put(FrameNumber(physaddr))
      ensures nextIndex < bitmap.Length && 8 * nextIndex + nextOffset == physaddr / 4096
      ensures OneChanged(old(bitmap[..]), bitmap[..], physaddr / 4096, false)
    {
      hide FreeFrames, FrameFree, WithBit, WithoutBit, IsSet, BitmapIndex, BitmapOffset, OneChanged;
      ghost var before := bitmap[..];
      FrameOfOffsets(physaddr);
      OneLessInUse(before, BitmapIndex(physaddr), BitmapOffset(physaddr));
      var index, offset := BitmapIndex(physaddr), BitmapOffset(physaddr);
      ClearBitGivesFrame(bitmap[..], index, offset);
      bitmap[index] := WithoutBit(bitmap[index], offset);
      assert bitmap[..] == old(bitmap[..])[index := WithoutBit(old(bitmap[index]), offset)];
      assert bitmap[..] == before[index := WithoutBit(before[index], offset)];
      nextIndex := index;
      nextOffset := offset;
    }
  }

  // The first zero of the first byte that is not full is the lowest free frame.
  lemma LowestIsNext(bits: seq<bv8>, i: nat, o: nat)
    requires i <= |bits| && forall j :: 0 <= j < i ==> bits[j] == 0xFF
    requires i < |bits| ==> o < 8 && !IsSet(bits[i], o) && forall k: nat :: k < o ==> IsSet(bits[i], k)
    ensures Lowest(FreeFrames(bits)) == if i < |bits| then Some(8 * i + o) else None
  {
    forall f: nat | FrameFree(bits, f)
      ensures i < |bits| && 8 * i + o <= f
    {
      FullByte(bits[f / 8]);
      assert f / 8 >= i;
    }
    if i < |bits| {
      assert 8 * i + o in FreeFrames(bits);
    }
  }
}
