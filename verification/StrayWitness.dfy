// Two runs of the heap code as written that meet a stray prev. In the first one
// nobody loses anything. In the second one a live block is overwritten.
module StrayWitness {
  import opened Words
  import opened HeaderWords
  import opened Areas
  import opened HeapRuns
  import opened HeapLayout
  import opened Merging
  import opened AsWritten
  import opened AsWrittenSafety

  const PA: int := HEAP_START + 8
  const PB: int := HEAP_START + 32
  const PC: int := HEAP_START + 56
  const PD: int := HEAP_START + 80

  // Four small blocks; the second and the first one are freed. That leaves the
  // prev of the third at the absorbed header of the second.
  const M2: seq<Area> := [At(0, -1, true), At(24, 0, true), At(48, 24, false), At(LAST, 0, false)]
  const M3: seq<Area> :=
    [At(0, -1, true), At(24, 0, true), At(48, 24, true), At(72, 48, false), At(LAST, 0, false)]
  const M4: seq<Area> :=
    [At(0, -1, true), At(24, 0, true), At(48, 24, true), At(72, 48, true), At(96, 72, false), At(LAST, 0, false)]
  const M5: seq<Area> := M4[1 := At(24, 0, false)]
  const M6: seq<Area> :=
    [At(0, -1, false), At(48, 24, true), At(72, 48, true), At(96, 72, false), At(LAST, 0, false)]
  // The third block is freed as well.
  const M7: seq<Area> :=
    [At(0, -1, false), At(48, 24, false), At(72, 24, true), At(96, 72, false), At(LAST, 0, false)]
  // Instead, the room of the first two is given to a new owner.
  const M8: seq<Area> := M6[0 := At(0, -1, true)]

  lemma Mallocs1()
    ensures Malloc(false, L1, 16) == (M2, PB)
    ensures Malloc(false, M2, 16) == (M3, PC)
  {
    Roundings();
    hide Rounded;
    MallocAt(L1, 16, 1, M2);
    MallocAt(M2, 16, 2, M3);
  }

  lemma Mallocs2()
    ensures Malloc(false, M3, 16) == (M4, PD)
  {
    Roundings();
    hide Rounded;
    MallocAt(M3, 16, 3, M4);
  }

  lemma MallocE()
    ensures Malloc(false, M6, 24) == (M8, PA)
  {
    assert Rounded(24) == 32;
    hide Rounded;
    MallocAt(M6, 24, 0, M8);
  }

  lemma FreeB()
    ensures Release(false, M4, PB, true) == Some(M5) && HarmlessFree(M4, PB)
  {
    ReleaseOf(M4, 1, 0, M5);
    HeaderOf(M4, 1);
    StoredHeaderOf(M4, 1, 0);
  }

  lemma FreeA()
    ensures Release(false, M5, PA, true) == Some(M6) && HarmlessFree(M5, PA)
  {
    HeaderOf(M5, 0);
    assert StoredHeader(M5, 0) == Some(None);
    assert Unmark(M5, 0) == M5[0 := At(0, -1, false)];
    assert Free(false, M5, 0, None) == M6;
  }

  lemma FreeC(bit: bool)
    ensures StoredHeader(M6, 1) == None && HarmlessFree(M6, PC)
    ensures Release(false, M6, PC, bit) == Some(if bit then M6[1 := At(48, 24, false)] else M7)
  {
    HeaderOf(M6, 1);
    StrayAt(M6);
    assert Unmark(M6, 1) == M6[1 := At(48, 24, false)];
    assert M7 == M6[1 := At(48, 24, false)][2 := At(72, 24, true)];
  }

  lemma StrayAt(s: seq<Area>)
    requires |s| > 1 && s[0].addr == HEAP_START && s[1].prev == HEAP_START + 24
    ensures StoredHeader(s, 1) == None
  {
    assert s[..1][0].addr == HEAP_START;
  }

  // One more call in front of a legal and harmless run.
  ghost predicate Reaches(st: State, ops: seq<Op>, end: State) {
    LegalRun(false, st, ops) && HarmlessRun(st, ops) && Run(false, st, ops) == Some(end)
  }

  lemma OneMore(st: State, op: Op, next: State, ops: seq<Op>, end: State)
    requires |st.areas| > 0 && Legal(st, op) && Step(false, st, op) == Some(next) && HarmlessOp(st.areas, op)
    requires Reaches(next, ops, end)
    ensures Reaches(st, [op] + ops, end)
  {
    hide Step, Legal, HarmlessOp;
    assert ([op] + ops)[1..] == ops;
  }

  lemma AfterMalloc(st: State, size: Word, t: seq<Area>, p: int, ops: seq<Op>, end: State)
    requires |st.areas| > 0 && size <= MAX_REQUEST && Malloc(false, st.areas, size) == (t, p) && p != 0
    requires Reaches(State(t, st.owed[p := size]), ops, end)
    ensures Reaches(st, [DoMalloc(size)] + ops, end)
  {
    hide Malloc;
    OneMore(st, DoMalloc(size), State(t, st.owed[p := size]), ops, end);
  }

  lemma AfterFree(st: State, p: int, bit: bool, t: seq<Area>, owed: map<int, int>, ops: seq<Op>, end: State)
    requires |st.areas| > 0 && p in st.owed && Release(false, st.areas, p, bit) == Some(t) && HarmlessFree(st.areas, p)
    requires owed == st.owed - {p} && Reaches(State(t, owed), ops, end)
    ensures Reaches(st, [DoFree(p, bit)] + ops, end)
  {
    hide Release, HarmlessFree;
    OneMore(st, DoFree(p, bit), State(t, owed), ops, end);
  }

  // From the initial heap to the stray prev, and on with ops.
  lemma ToStray(ops: seq<Op>, end: State)
    requires Reaches(State(M6, map[PC := 16, PD := 16]), ops, end)
    ensures Reaches(Start0(HEAP_START, HEAP_END), FOUR_BLOCKS + (TWO_FREES + ops), end)
  {
    hide Malloc, Release, HarmlessFree, Reaches;
    FreeB();
    FreeA();
    var owed4 := map[PA := 16, PB := 16, PC := 16, PD := 16];
    var owed5 := map[PA := 16, PC := 16, PD := 16];
    AfterFree(State(M5, owed5), PA, true, M6, map[PC := 16, PD := 16], ops, end);
    AfterFree(State(M4, owed4), PB, true, M5, owed5, [DoFree(PA, true)] + ops, end);
    assert TWO_FREES + ops == [DoFree(PB, true)] + ([DoFree(PA, true)] + ops);
    ToFourBlocks(TWO_FREES + ops, end);
  }

  lemma ToFourBlocks(ops: seq<Op>, end: State)
    requires Reaches(State(M4, map[PA := 16, PB := 16, PC := 16, PD := 16]), ops, end)
    ensures Reaches(Start0(HEAP_START, HEAP_END), FOUR_BLOCKS + ops, end)
  {
    hide Malloc, Reaches;
    WitnessMalloc1();
    Mallocs1();
    Mallocs2();
    var m := [DoMalloc(16)];
    var owed3 := map[PA := 16, PB := 16, PC := 16];
    AfterMalloc(State(M3, owed3), 16, M4, PD, ops, end);
    AfterMalloc(State(M2, map[PA := 16, PB := 16]), 16, M3, PC, m + ops, end);
    AfterMalloc(State(L1, map[PA := 16]), 16, M2, PB, m + (m + ops), end);
    AfterMalloc(Start0(HEAP_START, HEAP_END), 16, L1, PA, m + (m + (m + ops)), end);
    assert FOUR_BLOCKS + ops == m + (m + (m + (m + ops)));
  }

  const FOUR_BLOCKS: seq<Op> := [DoMalloc(16), DoMalloc(16), DoMalloc(16), DoMalloc(16)]
  const TWO_FREES: seq<Op> := [DoFree(PB, true), DoFree(PA, true)]

  // The third block can be freed through its stray prev, whatever is read
  // there: the run is legal and harmless, and the fourth block keeps its owner.
  lemma StrayFreeIsHarmless(bit: bool)
    ensures StoredHeader(M6, 1) == None
    ensures var end := State(if bit then M6[1 := At(48, 24, false)] else M7, map[PD := 16]);
      Reaches(Start0(HEAP_START, HEAP_END), FOUR_BLOCKS + (TWO_FREES + [DoFree(PC, bit)]), end)
  {
    FreeC(bit);
    hide Release, HarmlessFree, Malloc;
    var end := State(if bit then M6[1 := At(48, 24, false)] else M7, map[PD := 16]);
    AfterFree(State(M6, map[PC := 16, PD := 16]), PC, bit, end.areas, map[PD := 16], [], end);
    assert [DoFree(PC, bit)] + [] == [DoFree(PC, bit)];
    ToStray([DoFree(PC, bit)], end);
  }

  // If the room of the first two blocks has been given to a new owner, who has
  // cleared the 24 bytes he asked for, freeing the third block stores the address
  // of the fourth into them.
  lemma StrayFreeOverwrites(m: Memory)
    requires Laid(m, M8, HEAP_START, HEAP_END) && ZeroBytes(m, PA, PA + 24)
    ensures Reaches(Start0(HEAP_START, HEAP_END), FOUR_BLOCKS + (TWO_FREES + [DoMalloc(24)]),
                    State(M8, map[PA := 24, PC := 16, PD := 16]))
    ensures HarmlessFree(M8, PC) && (PA, 40) in Live(M8) && Overwrites(m, M8, PC, (PA, 40))
    ensures PA + 16 in m && AfterStray(m, M8, PC)[PA + 16] == HEAP_START + 72
  {
    ToNewOwner();
    HeaderOf(M8, 1);
    StrayAt(M8);
    assert HeaderIndex(M8, PC) == 1 && RootTarget(M8, 1) == 2;
    assert Extent(M8, 0) == (PA, 40);
    ZeroWord(m, PA + 16, PA, PA + 24);
    assert !UsedBit(0) && Address(0) == 0 && WithAddress(0, HEAP_START + 72) == HEAP_START + 72;
  }

  lemma ToNewOwner()
    ensures Reaches(Start0(HEAP_START, HEAP_END), FOUR_BLOCKS + (TWO_FREES + [DoMalloc(24)]),
                    State(M8, map[PA := 24, PC := 16, PD := 16]))
  {
    MallocE();
    hide Malloc;
    var end := State(M8, map[PA := 24, PC := 16, PD := 16]);
    assert map[PC := 16, PD := 16][PA := 24] == end.owed;
    AfterMalloc(State(M6, map[PC := 16, PD := 16]), 24, M8, PA, [], end);
    assert [DoMalloc(24)] + [] == [DoMalloc(24)];
    ToStray([DoMalloc(24)], end);
  }

  lemma ZeroWord(m: Memory, a: int, from: int, to: int)
    requires a % 4 == 0 && from <= a && a + 4 <= to && ZeroBytes(m, from, to)
    ensures a in m && m[a] == 0
  {
    assert ZeroByte(m, a) && ZeroByte(m, a + 1) && ZeroByte(m, a + 2) && ZeroByte(m, a + 3);
    BytesJoin(m[a]);
  }
}
