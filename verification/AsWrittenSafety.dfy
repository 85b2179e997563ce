// For which whole runs the heap code as written gives every owner a block of
// its own: exactly those in which no kfree merges over a live area. Wrong and
// stray prev links alone cost nobody a block.
module AsWrittenSafety {
  import opened Words
  import opened Areas
  import opened AreaTheorems
  import opened HeapRuns
  import opened HeapTheorems
  import opened AsWritten

  // ---------- The test before a call ----------

  // The stored prev of header i names a free header, with a live area between.
  predicate MergesOverLive(s: seq<Area>, i: nat)
    requires i < |s|
  {
    var j := StoredHeader(s, i);
    j.Some? && SkipsLive(s, i, j.value)
  }

  // The header in front of ptr is not the last one and does not merge over a
  // live area. Its stored prev may be stray.
  predicate HarmlessFree(s: seq<Area>, ptr: int)
    requires |s| > 0
  {
    var i := FindHeader(s[..|s| - 1], ptr - HEADER);
    ptr == 0 ||
    (i.Some? &&
     (s[i.value].used ==> !TakesSentinel(false, s, i.value) && !MergesOverLive(s, i.value)))
  }

  // krealloc allocates, then frees in the list that this leaves.
  predicate HarmlessRealloc(s: seq<Area>, ptr: int, size: Word)
    requires |s| > 0
  {
    size == 0 || ptr == 0 ||
    var i := FindHeader(s[..|s| - 1], ptr - HEADER);
    i.Some? &&
    (Size(s, i.value) < size ==>
       var (t, p) := Malloc(false, s, size);
       p != 0 ==> HarmlessFree(t, ptr))
  }

  // The three allocating calls are always harmless.
  predicate HarmlessOp(s: seq<Area>, op: Op)
    requires |s| > 0
  {
    match op
    case DoMalloc(_) => true
    case DoCalloc(_, _) => true
    case DoPageAlloc(_) => true
    case DoRealloc(ptr, size, _) => HarmlessRealloc(s, ptr, size)
    case DoFree(ptr, _) => HarmlessFree(s, ptr)
  }

  predicate HarmlessRun(st: State, ops: seq<Op>)
    decreases |ops|
  {
    ops == [] ||
    (|st.areas| > 0 && HarmlessOp(st.areas, ops[0]) &&
     var st' := Step(false, st, ops[0]);
     st'.Some? ==> HarmlessRun(st'.value, ops[1..]))
  }

  // In every state of the run as written the chain of headers still reaches the
  // sentinel (the state exists), every owner has a live area of at least the
  // requested size, and every live area an owner.
  ghost predicate OwnedThroughout(st: State, ops: seq<Op>)
    decreases |ops|
  {
    ops == [] ||
    (|st.areas| > 0 &&
     var st' := Step(false, st, ops[0]);
     st'.Some? && Owned(st'.value) && OwnedThroughout(st'.value, ops[1..]))
  }

  // ---------- Allocation ----------

  // The headers tile the heap and no prev points forward.
  predicate Sound(s: seq<Area>, lo: int, hi: int) {
    Tiled(s, lo, hi) && Backward(s, lo)
  }

  lemma AllocateGrants(s: seq<Area>, r: Request, lo: int, hi: int)
    requires Sound(s, lo, hi) && 0 < lo && Proper(r)
    ensures var (t, p) := Allocate(false, s, r);
      Sound(t, lo, hi) && (if p == 0 then t == s else Granted(s, t, p, Usable(r)))
  {
    hide Allocate, Live, Fits, Need, Usable, Linked, Proper, Backward;
    AllocateBackward(s, r, lo, hi);
    AllocateCuts(false, s, r, lo, hi);
    var (t, p) := Allocate(false, s, r);
    if p != 0 {
      var k: nat, z: int :| CutFrom(s, r, k, p, z) && Live(t) == Live(s) + {(p, z)};
      CutIsFresh(s, r, k, p, z, lo, hi);
    }
  }

  lemma AllocateBackward(s: seq<Area>, r: Request, lo: int, hi: int)
    requires Sound(s, lo, hi) && Proper(r)
    ensures Backward(Allocate(false, s, r).0, lo)
  {
    hide Place, Fits, Proper;
    BestInIsBest(s, r, |s| - 1);
    if BestFit(s, r).Some? {
      PlaceBackward(false, s, BestFit(s, r).value, r, lo, hi);
    }
  }

  lemma CutIsFresh(s: seq<Area>, r: Request, k: nat, p: int, z: int, lo: int, hi: int)
    requires Tiled(s, lo, hi) && 0 < lo && Proper(r) && CutFrom(s, r, k, p, z)
    ensures p > 0 && forall x :: x in Live(s) ==> x.0 != p
  {
    hide Live, Linked;
    ProperUsable(r);
    assert s[0].addr <= s[k].addr;
    PlaceFresh(s, k, p, lo, hi);
  }

  lemma MallocGrants(s: seq<Area>, size: Word, lo: int, hi: int)
    requires Sound(s, lo, hi) && 0 < lo && size <= MAX_REQUEST
    ensures var (t, p) := Malloc(false, s, size);
      Sound(t, lo, hi) && (if p == 0 then t == s else Granted(s, t, p, size))
  {
    hide Allocate, Live, Ascending, Aligned;
    RoundedExactly(size);
    if size != 0 {
      AllocateGrants(s, Bytes(Rounded(size)), lo, hi);
    }
  }

  lemma PageMallocGrants(s: seq<Area>, n: Word, lo: int, hi: int)
    requires Sound(s, lo, hi) && 0 < lo && n * PAGE_SIZE < 0x1_0000_0000
    ensures var (t, p) := PageMalloc(false, s, n);
      Sound(t, lo, hi) && (if p == 0 then t == s else Granted(s, t, p, n * PAGE_SIZE))
  {
    hide Allocate, PageMalloc, Live, Ascending, Aligned, Granted, Usable, Proper;
    PagesRequest(false, s, n);
    if n != 0 {
      AllocateGrants(s, Pages(n * PAGE_SIZE), lo, hi);
    }
  }

  // ---------- kfree ----------

  // kfree adds no live area.
  lemma FreeOnlyLoses(s: seq<Area>, i: nat, j: Option<nat>)
    requires Ascending(s) && i < |s| - 1 && s[i].used
    requires !TakesSentinel(false, s, i) && StoredPrev(s, i, j)
    ensures Live(Free(false, s, i, j)) <= Live(s) - {Extent(s, i)}
  {
    hide Live, LiveIn, Extent, Splice, Ascending;
    var f := Unmark(s, i);
    UnmarkLive(s, i);
    if j.Some? && !f[j.value].used {
      SpliceOnlyLoses(f, j.value, i + 1, f[j.value].addr);
      if i + 2 < |f| {
        SpliceOnlyLoses(f, j.value, i + 2, f[j.value].addr);
      }
    }
    if i + 2 < |f| {
      SpliceOnlyLoses(f, i, i + 2, f[i + 2].prev);
    }
  }

  lemma SpliceOnlyLoses(f: seq<Area>, j: nat, i: nat, prev: int)
    requires j < i < |f| && !f[j].used
    ensures Live(Splice(f, j, i, prev)) <= Live(f)
  {
    hide Splice, Extent;
    SpliceLive(f, j, i, prev);
  }

  // Owned survives exactly if no other live area is lost.
  lemma OwnedIffKept(st: State, t: seq<Area>, p: int, z: int, lo: int, hi: int)
    requires Owned(st) && Tiled(st.areas, lo, hi)
    requires (p, z) in Live(st.areas) && Live(t) <= Live(st.areas) - {(p, z)}
    ensures Owned(State(t, st.owed - {p})) <==> Live(t) == Live(st.areas) - {(p, z)}
  {
    hide Live, Ascending, Aligned;
    if Live(t) == Live(st.areas) - {(p, z)} {
      OwnedAfterRelease(st, t, p, z, lo, hi);
    } else {
      var x :| x in Live(st.areas) - {(p, z)} && x !in Live(t);
      LostBlock(st, t, p, z, x, lo, hi);
    }
  }

  lemma LostBlock(st: State, t: seq<Area>, p: int, z: int, x: (int, int), lo: int, hi: int)
    requires Owned(st) && Tiled(st.areas, lo, hi) && (p, z) in Live(st.areas)
    requires Live(t) <= Live(st.areas) && x in Live(st.areas) && x != (p, z) && x !in Live(t)
    ensures !Owned(State(t, st.owed - {p}))
  {
    hide Live, Ascending, Aligned;
    OnlyBlockAt(st.areas, p, z, lo, hi);
    OnlyBlockAt(st.areas, x.0, x.1, lo, hi);
    assert x == (x.0, x.1);
    assert x.0 in Payloads(st.areas) && x.0 in st.owed - {p};
    assert x.0 !in Payloads(t);
  }

  // kfree as written of used area i, for both values of the bit that it may
  // read through a stray prev: it gives up that area alone exactly if it does
  // not merge over a live one, and else some more.
  lemma FreeAtExactly(s: seq<Area>, i: nat, bit: bool, lo: int, hi: int)
    requires Sound(s, lo, hi) && i < |s| - 1 && s[i].used && !TakesSentinel(false, s, i)
    ensures var t := FreeAt(false, s, i, bit);
      && Sound(t, lo, hi)
      && Live(t) <= Live(s) - {Extent(s, i)}
      && (Live(t) == Live(s) - {Extent(s, i)} <==> !MergesOverLive(s, i))
  {
    hide Live, Free, MergeStray, SkipsLive, StoredHeader;
    if StoredHeader(s, i).Some? {
      var j := StoredHeader(s, i).value;
      FreeTiled(false, s, i, j, lo, hi);
      FreeBackward(false, s, i, j, lo, hi);
      FreeLiveExactly(false, s, i, j, lo, hi);
      FreeOnlyLoses(s, i, j);
    } else {
      StrayTiled(false, Unmark(s, i), i, bit, lo, hi);
      StrayBackward(false, s, i, bit, lo, hi);
      StrayLive(false, Unmark(s, i), i, bit);
      UnmarkLive(s, i);
    }
  }

  lemma ReleaseExactly(st: State, p: int, z: int, bit: bool, lo: int, hi: int)
    requires Owned(st) && Sound(st.areas, lo, hi) && 0 < lo && (p, z) in Live(st.areas)
    ensures var u := Release(false, st.areas, p, bit);
      && (u.Some? ==> Sound(u.value, lo, hi))
      && (u.Some? && Owned(State(u.value, st.owed - {p})) <==> HarmlessFree(st.areas, p))
      && (HarmlessFree(st.areas, p) ==> Live(u.value) == Live(st.areas) - {(p, z)})
  {
    hide Live, FreeAt, Owned, MergesOverLive, Ascending, Aligned, Backward, FindHeader;
    var s := st.areas;
    FindLive(s, p, z, lo, hi);
    LivePositive(s, p, z, lo, hi);
    var i := FindHeader(s[..|s| - 1], p - HEADER).value;
    if !TakesSentinel(false, s, i) {
      FreeAtExactly(s, i, bit, lo, hi);
      OwnedIffKept(st, FreeAt(false, s, i, bit), p, z, lo, hi);
    }
  }

  // ---------- krealloc ----------

  lemma ResizedOwned(st: State, p: int, z: int, size: int, lo: int, hi: int)
    requires Owned(st) && Tiled(st.areas, lo, hi) && (p, z) in Live(st.areas) && size <= z
    ensures Owned(State(st.areas, (st.owed - {p})[p := size]))
  {
    hide Live, Tiled;
    OnlyBlockAt(st.areas, p, z, lo, hi);
    assert p in Payloads(st.areas);
    assert (st.owed - {p})[p := size].Keys == st.owed.Keys;
  }

  ghost function AfterRealloc(st: State, p: int, size: Word, r: (seq<Area>, int)): State {
    State(r.0, if r.1 == 0 then st.owed else Hand(st.owed - {p}, r.1, size))
  }

  lemma ReallocExactly(st: State, p: int, z: int, size: Word, bit: bool, lo: int, hi: int)
    requires Owned(st) && Sound(st.areas, lo, hi) && 0 < lo && (p, z) in Live(st.areas) && size <= MAX_REQUEST
    ensures var r := Realloc(false, st.areas, p, size, bit);
      && (r.Some? ==> Sound(r.value.0, lo, hi))
      && (r.Some? && Owned(AfterRealloc(st, p, size, r.value)) <==> HarmlessRealloc(st.areas, p, size))
      && (HarmlessRealloc(st.areas, p, size) ==> Live(st.areas) - {(p, z)} <= Live(r.value.0))
  {
    hide Live, Realloc, Malloc, Release, HarmlessFree, Owned, Ascending, Aligned, Granted, Backward;
    var s := st.areas;
    ReallocOfLive(false, s, p, z, size, bit, lo, hi);
    FindLive(s, p, z, lo, hi);
    LivePositive(s, p, z, lo, hi);
    MallocGrants(s, size, lo, hi);
    var (t, q) := Malloc(false, s, size);
    if z >= size {
      ResizedOwned(st, p, z, size, lo, hi);
    } else if q != 0 {
      CopyExactly(st, t, q, p, z, size, bit, lo, hi);
    }
  }

  // The kfree at the end of krealloc, in the list behind its kmalloc.
  lemma CopyExactly(st: State, t: seq<Area>, q: int, p: int, z: int, size: Word, bit: bool, lo: int, hi: int)
    requires Owned(st) && 0 < lo && (p, z) in Live(st.areas)
    requires Sound(t, lo, hi) && Granted(st.areas, t, q, size)
    ensures var u := Release(false, t, p, bit);
      && (u.Some? ==> Sound(u.value, lo, hi))
      && (u.Some? && Owned(State(u.value, (st.owed - {p})[q := size])) <==> HarmlessFree(t, p))
      && (HarmlessFree(t, p) ==> Live(st.areas) - {(p, z)} <= Live(u.value))
  {
    hide Live, Release, HarmlessFree, Owned, Sound;
    assert q != p && (p, z) in Live(t) && Live(st.areas) <= Live(t);
    OwnedAfterGrant(st, t, q, size);
    ReleaseExactly(State(t, st.owed[q := size]), p, z, bit, lo, hi);
    assert st.owed[q := size] - {p} == (st.owed - {p})[q := size];
  }

  // ---------- One call ----------

  // From a tiled heap whose live areas belong to one owner each, a legal call
  // as written ends in such a heap if and only if it is harmless, whatever it
  // reads through a stray prev. It then moves no block but the one it names. The
  // prev links may be wrong or stray before and after.
  lemma StepHarmlessExactly(st: State, op: Op, lo: int, hi: int)
    requires Sound(st.areas, lo, hi) && 0 < lo && Owned(st) && Legal(st, op)
    ensures var st' := Step(false, st, op);
      && (st'.Some? ==> Sound(st'.value.areas, lo, hi))
      && (st'.Some? && Owned(st'.value) <==> HarmlessOp(st.areas, op))
      && (HarmlessOp(st.areas, op) ==> KeepsOthers(st.areas, st'.value.areas, op))
  {
    hide Live, Malloc, PageMalloc, Realloc, Release, HarmlessFree, HarmlessRealloc, Ascending, Aligned, Backward;
    hide Owned, Granted, KeepsOthers, Payloads;
    var s := st.areas;
    match op
    case DoMalloc(size) =>
      MallocGrants(s, size, lo, hi);
      AfterGrant(st, Malloc(false, s, size), size);
      GrantKeepsOthers(s, Malloc(false, s, size).0, op);
    case DoCalloc(nmemb, size) =>
      CallocRejectsExactly(nmemb, size);
      GrantKeepsOthers(s, s, op);
      if !CallocRejects(nmemb, size) {
        MallocGrants(s, Total(nmemb, size), lo, hi);
        AfterGrant(st, Malloc(false, s, Total(nmemb, size)), nmemb * size);
        GrantKeepsOthers(s, Malloc(false, s, Total(nmemb, size)).0, op);
      }
    case DoPageAlloc(n) =>
      PageMallocGrants(s, n, lo, hi);
      AfterGrant(st, PageMalloc(false, s, n), n * PAGE_SIZE);
      GrantKeepsOthers(s, PageMalloc(false, s, n).0, op);
    case DoRealloc(ptr, size, bit) =>
      StepRealloc(st, ptr, size, bit, lo, hi);
    case DoFree(ptr, bit) =>
      StepFree(st, ptr, bit, lo, hi);
  }

  lemma StepFree(st: State, ptr: int, bit: bool, lo: int, hi: int)
    requires Sound(st.areas, lo, hi) && 0 < lo && Owned(st) && (ptr == 0 || ptr in st.owed)
    ensures var u := Release(false, st.areas, ptr, bit);
      && (u.Some? ==> Sound(u.value, lo, hi))
      && (u.Some? && Owned(State(u.value, st.owed - {ptr})) <==> HarmlessFree(st.areas, ptr))
      && (HarmlessFree(st.areas, ptr) ==> KeepsOthers(st.areas, u.value, DoFree(ptr, bit)))
  {
    if ptr == 0 {
      NullHasNoOwner(st, lo, hi);
    } else {
      hide Live, Release, HarmlessFree, Owned, Sound;
      OwnedPayload(st, ptr);
      var z := BlockOf(st.areas, ptr);
      ReleaseExactly(st, ptr, z, bit, lo, hi);
    }
  }

  lemma StepRealloc(st: State, ptr: int, size: Word, bit: bool, lo: int, hi: int)
    requires Sound(st.areas, lo, hi) && 0 < lo && Owned(st)
    requires size <= MAX_REQUEST && (ptr == 0 || ptr in st.owed)
    ensures var r := Realloc(false, st.areas, ptr, size, bit);
      && (r.Some? ==> Sound(r.value.0, lo, hi))
      && (r.Some? && Owned(AfterRealloc(st, ptr, size, r.value)) <==> HarmlessRealloc(st.areas, ptr, size))
      && (HarmlessRealloc(st.areas, ptr, size) ==> KeepsOthers(st.areas, r.value.0, DoRealloc(ptr, size, bit)))
  {
    hide Live, Malloc, Owned, Ascending, Aligned, Granted, HarmlessFree, Release, Payloads, Backward;
    if ptr == 0 {
      NullHasNoOwner(st, lo, hi);
      MallocGrants(st.areas, size, lo, hi);
      AfterGrant(st, Malloc(false, st.areas, size), size);
    } else {
      OwnedPayload(st, ptr);
      var z := BlockOf(st.areas, ptr);
      hide Realloc, HarmlessRealloc;
      ReallocExactly(st, ptr, z, size, bit, lo, hi);
    }
  }

  lemma NullHasNoOwner(st: State, lo: int, hi: int)
    requires Tiled(st.areas, lo, hi) && 0 < lo && Owned(st)
    ensures st.owed - {0} == st.owed
  {
    hide Live, Tiled;
    forall x | x in Live(st.areas)
      ensures x.0 != 0
    {
      assert x == (x.0, x.1);
      LivePositive(st.areas, x.0, x.1, lo, hi);
    }
  }

  // ---------- Whole runs ----------

  // A legal run of the code as written serves every owner all the way, each
  // with a live area of its own, if and only if every call is harmless.
  lemma {:induction false} RunHarmlessExactly(st: State, ops: seq<Op>, lo: int, hi: int)
    requires Sound(st.areas, lo, hi) && 0 < lo && Owned(st) && LegalRun(false, st, ops)
    ensures OwnedThroughout(st, ops) <==> HarmlessRun(st, ops)
    ensures HarmlessRun(st, ops) ==>
      var end := Run(false, st, ops);
      && end.Some? && Sound(end.value.areas, lo, hi) && Owned(end.value)
      && forall x :: x in Live(st.areas) && Untouched(ops, x.0) ==> x in Live(end.value.areas)
    decreases |ops|
  {
    hide Step, Legal, HarmlessOp, Owned, Live, Ascending, Aligned, Concerns, Backward;
    if ops != [] {
      StepHarmlessExactly(st, ops[0], lo, hi);
      if HarmlessOp(st.areas, ops[0]) {
        RunHarmlessExactly(Step(false, st, ops[0]).value, ops[1..], lo, hi);
      }
    }
  }

  // Owners of a tiled heap do not overlap.
  lemma OwnersApart(st: State, lo: int, hi: int)
    requires Tiled(st.areas, lo, hi) && Owned(st)
    ensures !Overlapping(st)
  {
    hide Live, Tiled;
    if p, q :| p in st.owed && q in st.owed && p < q < p + st.owed[p] {
      var z := BlockOf(st.areas, p);
      var w := BlockOf(st.areas, q);
      LivePositive(st.areas, q, w, lo, hi);
      LiveDisjoint(st.areas, (p, z), (q, w), lo, hi);
    }
  }

  // From the initial heap: legal harmless runs of the code as written give no
  // byte to two owners, whatever becomes of the prev links.
  lemma HarmlessRunsAreSafe(ops: seq<Op>, lo: int, hi: int)
    requires Bounds(lo, hi) && LegalRun(false, Start0(lo, hi), ops)
    ensures OwnedThroughout(Start0(lo, hi), ops) <==> HarmlessRun(Start0(lo, hi), ops)
    ensures HarmlessRun(Start0(lo, hi), ops) ==>
      var end := Run(false, Start0(lo, hi), ops);
      end.Some? && Sound(end.value.areas, lo, hi) && Owned(end.value) && !Overlapping(end.value)
  {
    StartSafe(lo, hi);
    LinkedBackward(Initial(lo, hi), lo, hi);
    RunHarmlessExactly(Start0(lo, hi), ops, lo, hi);
    if HarmlessRun(Start0(lo, hi), ops) {
      OwnersApart(Run(false, Start0(lo, hi), ops).value, lo, hi);
    }
  }
}
