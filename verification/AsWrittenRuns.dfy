// For which whole runs the heap code as written is right: exactly those in
// which every call passes a test on the list before the call.
module AsWrittenRuns {
  import opened Words
  import opened Areas
  import opened AreaTheorems
  import opened HeapRuns
  import opened AsWritten

  // ---------- The test before a call ----------

  predicate BenignRequest(s: seq<Area>, r: Request)
    requires |s| > 0
  {
    var b := BestFit(s, r);
    b.Some? ==> !TailSplit(s, b.value, r)
  }

  predicate BenignMalloc(s: seq<Area>, size: Word)
    requires |s| > 0
  {
    size == 0 || BenignRequest(s, Bytes(Rounded(size)))
  }

  predicate BenignFree(s: seq<Area>, ptr: int)
    requires |s| > 0
  {
    var i := FindHeader(s[..|s| - 1], ptr - HEADER);
    ptr != 0 && i.Some? && s[i.value].used ==> Benign(s, i.value)
  }

  // krealloc allocates, then frees in the list that this leaves.
  predicate BenignRealloc(s: seq<Area>, ptr: int, size: Word)
    requires |s| > 0
  {
    if size == 0 then true
    else if ptr == 0 then BenignMalloc(s, size)
    else
      var i := FindHeader(s[..|s| - 1], ptr - HEADER);
      i.Some? && Size(s, i.value) < size ==>
        && BenignMalloc(s, size)
        && var (t, p) := Malloc(true, s, size); p != 0 ==> BenignFree(t, ptr)
  }

  predicate BenignOp(s: seq<Area>, op: Op)
    requires |s| > 0
  {
    match op
    case DoMalloc(size) => BenignMalloc(s, size)
    case DoCalloc(nmemb, size) => CallocRejects(nmemb, size) || BenignMalloc(s, Total(nmemb, size))
    case DoRealloc(ptr, size, _) => BenignRealloc(s, ptr, size)
    case DoPageAlloc(n) => n == 0 || BenignRequest(s, Pages((n * PAGE_SIZE) % 0x1_0000_0000))
    case DoFree(ptr, _) => BenignFree(s, ptr)
  }

  predicate BenignRun(st: State, ops: seq<Op>)
    decreases |ops|
  {
    ops == [] ||
    (|st.areas| > 0 && BenignOp(st.areas, ops[0]) &&
     var st' := Step(false, st, ops[0]);
     st'.Some? ==> BenignRun(st'.value, ops[1..]))
  }

  // Every state of the run as written exists and has its prev links right.
  predicate LinkedThroughout(st: State, ops: seq<Op>)
    decreases |ops|
  {
    ops == [] ||
    (|st.areas| > 0 &&
     var st' := Step(false, st, ops[0]);
     st'.Some? && Linked(st'.value.areas) && LinkedThroughout(st'.value, ops[1..]))
  }

  // ---------- Single operations ----------

  lemma MallocAsWrittenExactly(s: seq<Area>, size: Word, lo: int, hi: int)
    requires Good(s, lo, hi) && size <= MAX_REQUEST
    ensures Linked(Malloc(false, s, size).0) <==> BenignMalloc(s, size)
    ensures BenignMalloc(s, size) ==> Malloc(false, s, size) == Malloc(true, s, size)
  {
    hide BestFit, TailSplit, Place;
    RoundedExactly(size);
    if size != 0 {
      AllocateAsWrittenExactly(s, Bytes(Rounded(size)), lo, hi);
    }
  }

  lemma PageMallocAsWrittenExactly(s: seq<Area>, n: Word, lo: int, hi: int)
    requires Good(s, lo, hi) && n * PAGE_SIZE < 0x1_0000_0000
    ensures Linked(PageMalloc(false, s, n).0) <==> BenignOp(s, DoPageAlloc(n))
    ensures BenignOp(s, DoPageAlloc(n)) ==> PageMalloc(false, s, n) == PageMalloc(true, s, n)
  {
    hide Allocate, PageMalloc, Linked, Coalesced, Ascending, Aligned, BestFit, TailSplit;
    PagesRequest(false, s, n);
    PagesRequest(true, s, n);
    if n != 0 {
      AllocateAsWrittenExactly(s, Pages(n * PAGE_SIZE), lo, hi);
    }
  }

  lemma ReleaseAsWrittenExactly(s: seq<Area>, p: int, z: int, bit: bool, lo: int, hi: int)
    requires Good(s, lo, hi) && (p, z) in Live(s)
    ensures var u := Release(false, s, p, bit);
      && (u.Some? && Linked(u.value) <==> BenignFree(s, p))
      && (BenignFree(s, p) ==> u == Release(true, s, p, bit))
  {
    hide Release, Benign, Live;
    FindLive(s, p, z, lo, hi);
    LivePositive(s, p, z, lo, hi);
    FreeAsWrittenExactly(s, FindHeader(s[..|s| - 1], p - HEADER).value, bit, lo, hi);
  }

  // Two neighbours with a wrong prev stay so if nothing is merged around them.
  lemma SpliceKeepsPair(f: seq<Area>, a: nat, b: nat, prev: int, q: nat)
    requires a < b < |f| && q + 1 < |f| && f[q + 1].prev != f[q].addr
    requires q + 1 <= a || b <= q
    ensures !Linked(Splice(f, a, b, prev))
  {
    SpliceAt(f, a, b, prev);
    var t, q' := Splice(f, a, b, prev), if q + 1 <= a then q else q - (b - a) + 1;
    hide Splice;
    assert t[q' + 1].prev != t[q'].addr;
  }

  // A split that left a wrong prev behind is not mended by a kfree of another
  // block.
  lemma WrongPrevSurvives(s: seq<Area>, k: nat, size: int, j: nat, jp: Option<nat>, lo: int, hi: int)
    requires Good(s, lo, hi) && k < |s| - 1 && Fits(s, Bytes(size), k) && Proper(Bytes(size))
    requires TailSplit(s, k, Bytes(size))
    requires var t := Place(false, s, k, Bytes(size));
      j < |t| - 1 && j != k && t[j].used && !TakesSentinel(false, t, j) && StoredPrev(t, j, jp)
    ensures !Linked(Free(false, Place(false, s, k, Bytes(size)), j, jp))
  {
    hide Place, Fits, TailSplit, Live, Free, Aligned;
    var t := Place(false, s, k, Bytes(size));
    SplitTail(s, k, size);
    PlaceKeepsTiling(false, s, k, Bytes(size), lo, hi);
    if jp.Some? && j >= k + 2 {
      RootIsBehind(s, t, k, j, jp.value);
    }
    FreeSplices(t, j, jp, k + 1);
  }

  // The list behind a tail split as written.
  lemma SplitTail(s: seq<Area>, k: nat, size: int)
    requires Linked(s) && k < |s| - 1 && TailSplit(s, k, Bytes(size)) && size > 0
    ensures var t := Place(false, s, k, Bytes(size));
      && |t| == |s| + 1 && t[k].addr == s[k].addr && t[k].used && !t[k + 1].used && t[k + 2].prev != t[k + 1].addr
      && (forall i :: 0 <= i <= k ==> t[i].addr == s[i].addr && t[i].prev == s[i].prev)
      && forall i :: k + 2 <= i < |t| ==> t[i] == s[i - 1]
  {
    var at := TailAddr(Bytes(size), s[k].addr);
    InsertAt(false, s, k, at);
    assert Place(false, s, k, Bytes(size)) == Mark(Insert(false, s, k, at), k);
    assert s[k + 1].prev == s[k].addr;
    hide Insert, Place;
  }

  lemma RootIsBehind(s: seq<Area>, t: seq<Area>, k: nat, j: nat, jp: nat)
    requires Linked(s) && k + 2 <= j < |t| - 1 && |t| == |s| + 1 && Ascending(t)
    requires forall i :: k + 2 <= i < |t| ==> t[i] == s[i - 1]
    requires t[k].addr == s[k].addr && t[k].used && StoredPrev(t, j, Some(jp))
    ensures jp >= k + 2 || t[jp].used
  {
    assert s[j - 1].prev == s[j - 2].addr;
    if j == k + 2 {
      assert jp == k;
    } else {
      assert t[j - 1].addr == t[jp].addr;
    }
  }

  lemma FreeSplices(t: seq<Area>, j: nat, jp: Option<nat>, q: nat)
    requires j < |t| - 1 && !TakesSentinel(false, t, j) && StoredPrev(t, j, jp)
    requires q + 1 < |t| && t[q + 1].prev != t[q].addr
    requires j + 2 <= q || (q + 1 <= j && (jp.Some? ==> jp.value >= q + 1 || t[jp.value].used))
    ensures !Linked(Free(false, t, j, jp))
  {
    var f := Unmark(t, j);
    assert f[q + 1].prev != f[q].addr;
    assert !Linked(f);
    hide Splice, Linked;
    if jp.Some? && !f[jp.value].used {
      SpliceKeepsPair(f, jp.value, j + 1, f[jp.value].addr, q);
      if j + 2 < |f| {
        SpliceKeepsPair(f, jp.value, j + 2, f[jp.value].addr, q);
      }
    }
    if j + 2 < |f| {
      SpliceKeepsPair(f, j, j + 2, f[j + 2].prev, q);
    }
  }

  // A kmalloc that splits, followed by the kfree of another block, leaves a
  // wrong prev behind.
  lemma SplitThenRelease(s: seq<Area>, k: nat, size: int, p: int, z: int, bit: bool, lo: int, hi: int)
    requires Good(s, lo, hi) && k < |s| - 1 && Fits(s, Bytes(size), k) && Proper(Bytes(size))
    requires TailSplit(s, k, Bytes(size)) && (p, z) in Live(s)
    ensures var u := Release(false, Place(false, s, k, Bytes(size)), p, bit);
      u.Some? ==> !Linked(u.value)
  {
    hide Place, Fits, Free, TailSplit, Tiled, Live;
    var t := Place(false, s, k, Bytes(size));
    SplitTail(s, k, size);
    assert !Linked(t);
    OtherHeader(s, k, size, p, z, lo, hi);
    var f := FindHeader(t[..|t| - 1], p - HEADER);
    if f.Some? && t[f.value].used && !TakesSentinel(false, t, f.value) {
      NoStrayBehindSplit(s, t, k, f.value);
      WrongPrevSurvives(s, k, size, f.value, StoredHeader(t, f.value).value, lo, hi);
    }
  }

  // The split leaves a wrong prev, but no stray one.
  lemma NoStrayBehindSplit(s: seq<Area>, t: seq<Area>, k: nat, j: nat)
    requires Linked(s) && k < |s| - 1 && |t| == |s| + 1 && j < |t| - 1 && t[j].used
    requires forall i :: 0 <= i <= k ==> t[i].addr == s[i].addr && t[i].prev == s[i].prev
    requires !t[k + 1].used && forall i :: k + 2 <= i < |t| ==> t[i] == s[i - 1]
    ensures StoredHeader(t, j).Some?
  {
    if t[j].prev != 0 {
      var p := if j <= k then j - 1 else if j == k + 2 then k else j - 1;
      assert t[j].prev == t[p].addr by {
        if j <= k {
          assert s[j].prev == s[j - 1].addr;
        } else {
          assert s[j - 1].prev == s[j - 2].addr;
        }
      }
      assert t[..j][p].addr == t[j].prev;
    }
  }

  lemma OtherHeader(s: seq<Area>, k: nat, size: int, p: int, z: int, lo: int, hi: int)
    requires Tiled(s, lo, hi) && k < |s| - 1 && Fits(s, Bytes(size), k) && (p, z) in Live(s)
    ensures p - HEADER != s[k].addr
  {
    var i :| 0 <= i < |s| - 1 && s[i].used && (p, z) == Extent(s, i);
    assert i < k || k < i;
  }

  lemma ReallocAsWrittenExactly(s: seq<Area>, p: int, z: int, size: Word, bit: bool, lo: int, hi: int)
    requires Good(s, lo, hi) && (p, z) in Live(s) && size <= MAX_REQUEST
    ensures var u := Realloc(false, s, p, size, bit);
      && (u.Some? && Linked(u.value.0) <==> BenignRealloc(s, p, size))
      && (BenignRealloc(s, p, size) ==> u == Realloc(true, s, p, size, bit))
  {
    hide Realloc, Malloc, Release, Live, Tiled, Coalesced, BenignMalloc, BenignFree;
    ReallocOfLive(false, s, p, z, size, bit, lo, hi);
    ReallocOfLive(true, s, p, z, size, bit, lo, hi);
    LivePositive(s, p, z, lo, hi);
    FindLive(s, p, z, lo, hi);
    if size > z {
      MallocAsWrittenExactly(s, size, lo, hi);
      MallocGood(s, size, lo, hi);
      var (t, q) := Malloc(true, s, size);
      if BenignMalloc(s, size) {
        if q != 0 {
          ReleaseAsWrittenExactly(t, p, z, bit, lo, hi);
        }
      } else {
        SplitMalloc(s, p, z, size, bit, lo, hi);
      }
    }
  }

  lemma SplitMalloc(s: seq<Area>, p: int, z: int, size: Word, bit: bool, lo: int, hi: int)
    requires Good(s, lo, hi) && (p, z) in Live(s) && size <= MAX_REQUEST && !BenignMalloc(s, size)
    ensures var (t, q) := Malloc(false, s, size);
      q != 0 && var u := Release(false, t, p, bit); u.Some? ==> !Linked(u.value)
  {
    hide *;
    var k := SplitArea(s, size, lo, hi);
    SplitThenRelease(s, k, Rounded(size), p, z, bit, lo, hi);
  }

  // The area that a kmalloc failing the test splits.
  lemma SplitArea(s: seq<Area>, size: Word, lo: int, hi: int) returns (k: nat)
    requires Good(s, lo, hi) && size <= MAX_REQUEST && !BenignMalloc(s, size)
    ensures var r := Bytes(Rounded(size));
      && k < |s| - 1 && Fits(s, r, k) && Proper(r) && TailSplit(s, k, r)
      && Malloc(false, s, size) == (Place(false, s, k, r), Payload(s, k, r)) && Payload(s, k, r) != 0
  {
    hide Place, Fits, TailSplit, BestIn, Rounded, Linked, Coalesced, Payload;
    RoundedExactly(size);
    var r := Bytes(Rounded(size));
    k := BestFit(s, r).value;
    BestInIsBest(s, r, |s| - 1);
    PayloadOf(s, k, r, lo, hi);
  }

  // From a safe state a legal call as written ends in a well linked list if
  // and only if it passes the test, and then does what the repaired one does.
  lemma StepAsWrittenExactly(st: State, op: Op, lo: int, hi: int)
    requires Safe(st, lo, hi) && 0 < lo && Legal(st, op)
    ensures var st' := Step(false, st, op);
      && (st'.Some? && Linked(st'.value.areas) <==> BenignOp(st.areas, op))
      && (BenignOp(st.areas, op) ==> st' == Step(true, st, op))
  {
    hide Malloc, PageMalloc, Realloc, Release, Live, Tiled, Coalesced;
    hide BenignMalloc, BenignRequest, BenignFree, BenignRealloc;
    var s := st.areas;
    match op
    case DoMalloc(size) =>
      MallocAsWrittenExactly(s, size, lo, hi);
    case DoCalloc(nmemb, size) =>
      if !CallocRejects(nmemb, size) {
        MallocAsWrittenExactly(s, Total(nmemb, size), lo, hi);
      }
    case DoPageAlloc(n) =>
      PageMallocAsWrittenExactly(s, n, lo, hi);
    case DoRealloc(ptr, size, bit) =>
      if ptr == 0 {
        ReallocOfNull(s, size, bit, lo, hi);
      } else {
        var z := BlockOf(s, ptr);
        ReallocAsWrittenExactly(s, ptr, z, size, bit, lo, hi);
      }
    case DoFree(ptr, bit) =>
      if ptr == 0 {
        ReleaseOfNull(s, bit);
      } else {
        var z := BlockOf(s, ptr);
        ReleaseAsWrittenExactly(s, ptr, z, bit, lo, hi);
      }
  }

  lemma ReallocOfNull(s: seq<Area>, size: Word, bit: bool, lo: int, hi: int)
    requires Good(s, lo, hi) && size <= MAX_REQUEST
    ensures Realloc(false, s, 0, size, bit).Some? && Realloc(true, s, 0, size, bit).Some?
    ensures Linked(Realloc(false, s, 0, size, bit).value.0) <==> BenignRealloc(s, 0, size)
    ensures BenignRealloc(s, 0, size) ==> Realloc(false, s, 0, size, bit) == Realloc(true, s, 0, size, bit)
  {
    hide Malloc, BenignMalloc;
    MallocAsWrittenExactly(s, size, lo, hi);
  }

  lemma ReleaseOfNull(s: seq<Area>, bit: bool)
    requires |s| > 0
    ensures Release(false, s, 0, bit) == Some(s) == Release(true, s, 0, bit) && BenignFree(s, 0)
  {
  }

  // ---------- Whole runs ----------

  // A legal run of the code as written keeps prev the inverse of next all the
  // way if and only if every call passes the test; then it is step for step
  // the run of the repaired code, so all that holds of those holds of it.
  lemma {:induction false} RunAsWrittenExactly(st: State, ops: seq<Op>, lo: int, hi: int)
    requires Safe(st, lo, hi) && 0 < lo && LegalRun(false, st, ops)
    ensures LinkedThroughout(st, ops) <==> BenignRun(st, ops)
    ensures BenignRun(st, ops) ==> LegalRun(true, st, ops) && Run(false, st, ops) == Run(true, st, ops)
    decreases |ops|
  {
    if ops != [] {
      hide Step, Legal, BenignOp, Tiled, Linked, Coalesced, Owned;
      StepAsWrittenExactly(st, ops[0], lo, hi);
      StepSafe(st, ops[0], lo, hi);
      if BenignOp(st.areas, ops[0]) {
        RunAsWrittenExactly(Step(true, st, ops[0]).value, ops[1..], lo, hi);
      }
    }
  }
}
