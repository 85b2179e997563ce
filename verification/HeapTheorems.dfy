// What holds of every run of the kernel heap with the three repairs.
module HeapTheorems {
  import opened Words
  import opened Areas
  import opened AreaTheorems
  import opened HeapRuns

  lemma StartSafe(lo: int, hi: int)
    requires Bounds(lo, hi)
    ensures Safe(Start0(lo, hi), lo, hi)
  {
    assert Live(Initial(lo, hi)) == {};
    PageMultiple(lo);
  }

  lemma {:induction false} RunFromSafe(st: State, ops: seq<Op>, lo: int, hi: int)
    requires Safe(st, lo, hi) && 0 < lo && LegalRun(true, st, ops)
    ensures Run(true, st, ops).Some? && Safe(Run(true, st, ops).value, lo, hi)
    ensures forall x :: x in Live(st.areas) && Untouched(ops, x.0) ==> x in Live(Run(true, st, ops).value.areas)
    decreases |ops|
  {
    if ops != [] {
      StepSafe(st, ops[0], lo, hi);
      hide Step, Legal, Concerns, Live;
      RunFromSafe(Step(true, st, ops[0]).value, ops[1..], lo, hi);
    }
  }

  // No operation of the run is a kfree or krealloc of p.
  predicate Untouched(ops: seq<Op>, p: int)
    decreases |ops|
  {
    ops == [] || (!Concerns(ops[0], p) && Untouched(ops[1..], p))
  }

  // No legal run fails; after it the headers tile the heap, prev inverts next,
  // no two neighbours are free, and the live payloads are disjoint, inside the
  // heap, and as large as their owners asked.
  lemma HeapSafe(ops: seq<Op>, lo: int, hi: int)
    requires Bounds(lo, hi) && LegalRun(true, Start0(lo, hi), ops)
    ensures var end := Run(true, Start0(lo, hi), ops);
      && end.Some? && Safe(end.value, lo, hi)
      && (forall x, y :: x in Live(end.value.areas) && y in Live(end.value.areas) && x != y ==>
            x.0 + x.1 + HEADER <= y.0 || y.0 + y.1 + HEADER <= x.0)
      && (forall x :: x in Live(end.value.areas) ==> lo + HEADER <= x.0 && x.0 + x.1 <= hi)
  {
    StartSafe(lo, hi);
    RunFromSafe(Start0(lo, hi), ops, lo, hi);
    var s := Run(true, Start0(lo, hi), ops).value.areas;
    forall x, y | x in Live(s) && y in Live(s) && x != y
      ensures x.0 + x.1 + HEADER <= y.0 || y.0 + y.1 + HEADER <= x.0
    {
      LiveDisjoint(s, x, y, lo, hi);
    }
    forall x | x in Live(s)
      ensures lo + HEADER <= x.0 && x.0 + x.1 <= hi
    {
      assert x == (x.0, x.1);
      LivePositive(s, x.0, x.1, lo, hi);
    }
  }

  // A live block stays where and as large as it is until an operation on it.
  lemma ExtentsStable(before: seq<Op>, after: seq<Op>, x: (int, int), lo: int, hi: int)
    requires Bounds(lo, hi) && LegalRun(true, Start0(lo, hi), before)
    requires var mid := Run(true, Start0(lo, hi), before);
      mid.Some? ==> LegalRun(true, mid.value, after) && x in Live(mid.value.areas)
    requires Untouched(after, x.0)
    ensures var mid := Run(true, Start0(lo, hi), before);
      mid.Some? && var end := Run(true, mid.value, after); end.Some? && x in Live(end.value.areas)
  {
    StartSafe(lo, hi);
    RunFromSafe(Start0(lo, hi), before, lo, hi);
    RunFromSafe(Run(true, Start0(lo, hi), before).value, after, lo, hi);
  }

  // However the blocks were handed out, and in whatever order they came back,
  // once nothing is owed the heap is the single initial free area.
  lemma AllGivenBack(ops: seq<Op>, lo: int, hi: int)
    requires Bounds(lo, hi) && LegalRun(true, Start0(lo, hi), ops)
    requires var end := Run(true, Start0(lo, hi), ops); end.Some? && end.value.owed == map[]
    ensures Run(true, Start0(lo, hi), ops).value.areas == Initial(lo, hi)
  {
    StartSafe(lo, hi);
    RunFromSafe(Start0(lo, hi), ops, lo, hi);
    var st := Run(true, Start0(lo, hi), ops).value;
    assert forall x :: x in Live(st.areas) ==> x.0 in Payloads(st.areas);
    NothingLive(st.areas, lo, hi);
  }

  // Freeing what was just allocated restores the heap, prev links included.
  lemma AllocateThenFree(s: seq<Area>, r: Request, bit: bool, lo: int, hi: int)
    requires Good(s, lo, hi) && Proper(r)
    ensures var (t, p) := Allocate(true, s, r);
      p != 0 ==> Release(true, t, p, bit) == Some(s)
  {
    BestInIsBest(s, r, |s| - 1);
    if BestFit(s, r).Some? {
      PlaceThenRelease(s, BestFit(s, r).value, r, bit, lo, hi);
    }
  }

  lemma PlaceThenRelease(s: seq<Area>, k: nat, r: Request, bit: bool, lo: int, hi: int)
    requires Good(s, lo, hi) && Proper(r) && k < |s| - 1 && Fits(s, r, k)
    ensures Release(true, Place(true, s, k, r), Payload(s, k, r), bit) == Some(s)
  {
    var t, i, p := Place(true, s, k, r), PlacedIndex(s, k, r), Payload(s, k, r);
    PlaceKeepsTiling(true, s, k, r, lo, hi);
    AllocateInGood(s, k, r, lo, hi);
    PlaceThenFree(s, k, r, lo, hi);
    hide Place, PlacedIndex, Payload, Free;
    ReleaseAt(t, i, bit, lo, hi);
  }

  lemma ReleaseAt(t: seq<Area>, i: nat, bit: bool, lo: int, hi: int)
    requires Good(t, lo, hi) && i < |t| - 1 && t[i].used
    ensures StoredPrev(t, i, Pred(i))
    ensures Release(true, t, t[i].addr + HEADER, bit) == Some(Free(true, t, i, Pred(i)))
  {
    assert Extent(t, i) == (t[i].addr + HEADER, Size(t, i)) && Extent(t, i) in Live(t);
    FindLive(t, t[i].addr + HEADER, Size(t, i), lo, hi);
    var f := FindHeader(t[..|t| - 1], t[i].addr).value;
    assert t[f].addr == t[i].addr;
    LivePositive(t, t[i].addr + HEADER, Size(t, i), lo, hi);
    PredIsStored(t, i, lo, hi);
    StoredHeaderIsPred(t, i, lo, hi);
  }
}
