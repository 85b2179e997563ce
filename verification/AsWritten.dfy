// Where the heap code as written falls short: exactly which single operations
// go wrong on a good heap, and a legal run that ends in overlapping blocks.
module AsWritten {
  import opened Words
  import opened Areas
  import opened AreaTheorems
  import opened HeapRuns

  // R1. From a good heap, an allocation as written leaves prev wrong exactly
  // when it splits the tail off; otherwise it is the repaired one.
  lemma AllocateAsWrittenExactly(s: seq<Area>, r: Request, lo: int, hi: int)
    requires Good(s, lo, hi) && Proper(r)
    ensures var b, asWritten := BestFit(s, r), Allocate(false, s, r);
      && (Linked(asWritten.0) <==> b.None? || !TailSplit(s, b.value, r))
      && (Linked(asWritten.0) ==> asWritten == Allocate(true, s, r))
  {
    BestInIsBest(s, r, |s| - 1);
    if BestFit(s, r).Some? {
      PlaceLinkedExactly(false, s, BestFit(s, r).value, r, lo, hi);
    }
  }

  // Neither R2 nor R3 touches the freed area: it is not the last one, and it
  // does not merge with its successor alone.
  predicate Benign(s: seq<Area>, i: nat) {
    i + 2 < |s| && (s[i + 1].used || (i > 0 && !s[i - 1].used))
  }

  // R2 and R3. From a good heap, kfree as written of the live block at index
  // i keeps a well linked list exactly when i is benign, and then it does what
  // the repaired one does.
  lemma FreeAsWrittenExactly(s: seq<Area>, i: nat, bit: bool, lo: int, hi: int)
    requires Good(s, lo, hi) && i < |s| - 1 && s[i].used
    ensures var p := s[i].addr + HEADER;
      var asWritten := Release(false, s, p, bit);
      && (asWritten.Some? && Linked(asWritten.value) <==> Benign(s, i))
      && (Benign(s, i) ==> asWritten == Release(true, s, p, bit))
  {
    assert (s[i].addr + HEADER, Size(s, i)) == Extent(s, i) && Extent(s, i) in Live(s);
    FindLive(s, s[i].addr + HEADER, Size(s, i), lo, hi);
    var f := FindHeader(s[..|s| - 1], s[i].addr).value;
    assert s[f].addr == s[i].addr;
    StoredHeaderIsPred(s, i, lo, hi);
    PredIsStored(s, i, lo, hi);
    if i + 2 < |s| {
      FreeLinkedExactly(false, s, i, lo, hi);
    }
  }

  // ---------- A run of the code as written that loses a live block ----------

  const HEAP_START: int := 0xE000_0000
  const HEAP_END: int := 0xFFC0_0000 - HEADER

  function At(offset: int, prev: int, used: bool): Area {
    Area(HEAP_START + offset, if prev < 0 then 0 else HEAP_START + prev, used)
  }

  const LAST: int := HEAP_END - HEAP_START

  lemma MallocAt(s: seq<Area>, size: Word, k: nat, t: seq<Area>)
    requires |s| > 0 && size > 0 && IsBestFit(s, Bytes(Rounded(size)), |s| - 1, k)
    requires t == Place(false, s, k, Bytes(Rounded(size)))
    ensures Malloc(false, s, size) == (t, s[k].addr + HEADER)
  {
    BestFitExact(s, Bytes(Rounded(size)), k);
  }

  lemma ReleaseOf(s: seq<Area>, i: nat, j: nat, t: seq<Area>)
    requires Ascending(s) && i + 2 < |s| && s[i].used && s[i].addr > 0
    requires StoredPrev(s, i, Some(j)) && t == Free(false, s, i, Some(j))
    ensures Release(false, s, s[i].addr + HEADER, true) == Some(t)
  {
    HeaderOf(s, i);
    StoredHeaderOf(s, i, j);
  }

  lemma HeaderOf(s: seq<Area>, i: nat)
    requires Ascending(s) && i < |s| - 1
    ensures FindHeader(s[..|s| - 1], s[i].addr) == Some(i)
  {
    var f := FindHeader(s[..|s| - 1], s[i].addr);
    assert s[..|s| - 1][i].addr == s[i].addr;
    assert s[f.value].addr == s[i].addr;
  }

  lemma StoredHeaderOf(s: seq<Area>, i: nat, j: nat)
    requires Ascending(s) && i < |s| && StoredPrev(s, i, Some(j))
    ensures StoredHeader(s, i) == Some(Some(j))
  {
    var g := FindHeader(s[..i], s[i].prev);
    assert s[..i][j].addr == s[i].prev;
    assert s[g.value].addr == s[j].addr;
  }

  const L0: seq<Area> := Initial(HEAP_START, HEAP_END)
  const L1: seq<Area> := [At(0, -1, true), At(24, 0, false), At(LAST, 0, false)]
  const L2: seq<Area> := [At(0, -1, true), At(24, 0, true), At(1032, 24, false), At(LAST, 0, false)]
  const L3: seq<Area> :=
    [At(0, -1, true), At(24, 0, true), At(1032, 24, true), At(1056, 1032, false), At(LAST, 0, false)]
  const L4: seq<Area> := L3[1 := At(24, 0, false)]
  const L5: seq<Area> :=
    [At(0, -1, true), At(24, 0, true), At(48, 24, false), At(1032, 24, true), At(1056, 1032, false),
     At(LAST, 0, false)]
  const L6: seq<Area> := L5[2 := At(48, 24, true)]
  const L7: seq<Area> := L6[1 := At(24, 0, false)]
  const L8: seq<Area> := [At(0, -1, true), At(24, 0, false), At(LAST, 24, false)]
  const L9: seq<Area> := [At(0, -1, true), At(24, 0, true), At(136, 24, false), At(LAST, 24, false)]

  lemma Roundings()
    ensures Rounded(16) == 24 && Rounded(100) == 112 && Rounded(960) == 968 && Rounded(1000) == 1008
  {
  }

  lemma WitnessMalloc1()
    ensures Malloc(false, L0, 16) == (L1, HEAP_START + 8)
  {
    Roundings();
    hide Rounded;
    MallocAt(L0, 16, 0, L1);
  }

  lemma WitnessMalloc2()
    ensures Malloc(false, L1, 1000) == (L2, HEAP_START + 32)
  {
    Roundings();
    hide Rounded;
    MallocAt(L1, 1000, 1, L2);
  }

  lemma WitnessMalloc3()
    ensures Malloc(false, L2, 16) == (L3, HEAP_START + 1040)
  {
    Roundings();
    hide Rounded;
    MallocAt(L2, 16, 2, L3);
  }

  lemma WitnessFree4()
    ensures Release(false, L3, HEAP_START + 32, true) == Some(L4)
  {
    ReleaseOf(L3, 1, 0, L4);
  }

  lemma WitnessMalloc5()
    ensures Malloc(false, L4, 16) == (L5, HEAP_START + 32)
  {
    Roundings();
    hide Rounded;
    MallocAt(L4, 16, 1, L5);
  }

  lemma WitnessMalloc6()
    ensures Malloc(false, L5, 960) == (L6, HEAP_START + 56)
  {
    Roundings();
    hide Rounded;
    MallocAt(L5, 960, 2, L6);
  }

  lemma WitnessFree7()
    ensures Release(false, L6, HEAP_START + 32, true) == Some(L7)
  {
    ReleaseOf(L6, 1, 0, L7);
  }

  lemma WitnessFree8()
    ensures Release(false, L7, HEAP_START + 1040, true) == Some(L8)
  {
    ReleaseOf(L7, 3, 1, L8);
  }

  lemma WitnessMalloc9()
    ensures Malloc(false, L8, 100) == (L9, HEAP_START + 32)
  {
    Roundings();
    hide Rounded;
    MallocAt(L8, 100, 1, L9);
  }

  lemma RunCons(st: State, op: Op, next: State, ops: seq<Op>)
    requires |st.areas| > 0 && Legal(st, op) && Step(false, st, op) == Some(next)
    requires LegalRun(false, next, ops)
    ensures Run(false, st, [op] + ops) == Run(false, next, ops) && LegalRun(false, st, [op] + ops)
  {
    assert ([op] + ops)[1..] == ops;
  }

  const OPS1: seq<Op> := [DoMalloc(16), DoMalloc(1000), DoMalloc(16)]
  const OPS2: seq<Op> := [DoFree(HEAP_START + 32, true), DoMalloc(16), DoMalloc(960)]
  const OPS3: seq<Op> := [DoFree(HEAP_START + 32, true), DoFree(HEAP_START + 1040, true), DoMalloc(100)]

  lemma RunThree(st: State, ops: seq<Op>, s1: State, s2: State, s3: State, rest: seq<Op>)
    requires |ops| == 3 && |st.areas| > 0 && |s1.areas| > 0 && |s2.areas| > 0
    requires Legal(st, ops[0]) && Legal(s1, ops[1]) && Legal(s2, ops[2])
    requires Step(false, st, ops[0]) == Some(s1)
    requires Step(false, s1, ops[1]) == Some(s2)
    requires Step(false, s2, ops[2]) == Some(s3)
    requires LegalRun(false, s3, rest)
    ensures Run(false, st, ops + rest) == Run(false, s3, rest) && LegalRun(false, st, ops + rest)
  {
    hide Step, Legal;
    RunCons(s2, ops[2], s3, rest);
    RunCons(s1, ops[1], s2, [ops[2]] + rest);
    RunCons(st, ops[0], s1, [ops[1]] + ([ops[2]] + rest));
    assert ops + rest == [ops[0]] + ([ops[1]] + ([ops[2]] + rest));
  }

  const A: int := HEAP_START + 8
  const B: int := HEAP_START + 32
  const C: int := HEAP_START + 56
  const D: int := HEAP_START + 1040
  const MID1: State := State(L3, map[A := 16, B := 1000, D := 16])
  const MID2: State := State(L6, map[A := 16, D := 16, B := 16, C := 960])
  const OVERLAP: State := State(L9, map[A := 16, C := 960, B := 100])

  lemma RunAllocations()
    ensures Run(false, Start0(HEAP_START, HEAP_END), OPS1 + (OPS2 + OPS3)) == Some(OVERLAP)
    ensures LegalRun(false, Start0(HEAP_START, HEAP_END), OPS1 + (OPS2 + OPS3))
  {
    WitnessMalloc1();
    WitnessMalloc2();
    WitnessMalloc3();
    RunReuse();
    hide Malloc;
    RunThree(Start0(HEAP_START, HEAP_END), OPS1, State(L1, map[A := 16]),
             State(L2, map[A := 16, B := 1000]), MID1, OPS2 + OPS3);
  }

  lemma RunReuse()
    ensures Run(false, MID1, OPS2 + OPS3) == Some(OVERLAP) && LegalRun(false, MID1, OPS2 + OPS3)
  {
    WitnessFree4();
    WitnessMalloc5();
    WitnessMalloc6();
    RunLoss();
    hide Malloc, Release;
    var owed := map[A := 16, D := 16];
    assert MID1.owed - {B} == owed;
    RunThree(MID1, OPS2, State(L4, owed), State(L5, owed[B := 16]), MID2, OPS3);
  }

  lemma RunLoss()
    ensures Run(false, MID2, OPS3) == Some(OVERLAP) && LegalRun(false, MID2, OPS3)
  {
    WitnessFree7();
    WitnessFree8();
    WitnessMalloc9();
    hide Malloc, Release;
    var owed := map[A := 16, D := 16, C := 960];
    assert MID2.owed - {B} == owed && owed - {D} == map[A := 16, C := 960];
    RunThree(MID2, OPS3, State(L7, owed), State(L8, owed - {D}), OVERLAP, []);
    assert OPS3 + [] == OPS3;
  }

  // Two owners whose requested bytes overlap.
  ghost predicate Overlapping(st: State) {
    exists p, q :: p in st.owed && q in st.owed && p < q < p + st.owed[p]
  }

  // Some legal run of the code as written (nine operations) hands the same
  // bytes to two owners.
  lemma AsWrittenOverlaps()
    ensures exists ops :: LegalRun(false, Start0(HEAP_START, HEAP_END), ops)
              && Run(false, Start0(HEAP_START, HEAP_END), ops).Some?
              && Overlapping(Run(false, Start0(HEAP_START, HEAP_END), ops).value)
  {
    RunAllocations();
    assert B in OVERLAP.owed && C in OVERLAP.owed && B < C < B + OVERLAP.owed[B];
  }
}
