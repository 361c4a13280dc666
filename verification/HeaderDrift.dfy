/** What the allocator does when the two headers differ in size, as they do in the 32-bit
    build: the padding of UsedSegment has length 0, so its header is 4 bytes and not 8. */
module HeaderDrift {
  import opened Words
  import opened FreeList
  import opened HeapRuns

  /** sizeof(UsedSegment) as built. */
  const BUILT_U: nat := 4

  /** The heap with one free segment and nothing else. */
  function Single(lo: nat, size: nat): State {
    State([Seg(lo, size)], map[], {})
  }

  /** The request fits the segment and leaves part of it free. */
  predicate LooseFit(lo: nat, size: nat, n: nat, alignment: nat, u: nat)
    requires 0 < alignment
  {
    0 < n && lo + F < HeaderIn(Seg(lo, size), n, alignment, u)
  }

  /** A segment inserted right behind the only free one is fused with it. */
  lemma TouchingInsert(rest: Seg, freed: Seg)
    requires rest.End() == freed.addr
    ensures Insert([rest], freed) == [Seg(rest.addr, rest.size + F + freed.size)]
  {
  }

  /** One `malloc` and its `free` leave a single segment that is `F - u` bytes larger. */
  lemma RoundDrifts(lo: nat, size: nat, n: nat, alignment: nat, u: nat)
    requires 0 < alignment && LooseFit(lo, size, n, alignment, u)
    ensures var (st, p) := Allocate(Single(lo, size), n, alignment, u);
            && p in st.live && u <= p && u <= st.live[p] <= size
            && Deallocate(st, p, u) == Single(lo, size + F - u)
  {
  }

  /** Allocate a block and give it straight back; a request that fails changes nothing. */
  function Round(st: State, n: nat, alignment: nat, u: nat): State
    requires 0 < alignment
  {
    var (st', p) := Allocate(st, n, alignment, u);
    if p in st'.live && u <= p && u <= st'.live[p] then Deallocate(st', p, u) else st'
  }

  function Iterate(f: State -> State, st: State, k: nat): State {
    if k == 0 then st else f(Iterate(f, st, k - 1))
  }

  /** What `k` rounds add. */
  function Drift(u: nat, k: nat): nat
    requires u <= F
  {
    if k == 0 then 0 else Drift(u, k - 1) + (F - u)
  }

  lemma {:induction false} DriftIsLinear(u: nat, k: nat)
    requires u <= F
    ensures Drift(u, k) == k * (F - u)
  {
    if k > 0 {
      DriftIsLinear(u, k - 1);
    }
  }

  lemma {:induction false} IterateDrifts(f: State -> State, lo: nat, size: nat, u: nat, k: nat)
    requires u <= F
    requires forall j: nat :: f(Single(lo, size + Drift(u, j))) == Single(lo, size + Drift(u, j) + (F - u))
    ensures Iterate(f, Single(lo, size), k) == Single(lo, size + Drift(u, k))
  {
    if k > 0 {
      IterateDrifts(f, lo, size, u, k - 1);
    }
  }

  /** `k` rounds of the same request add up to `k * (F - u)` bytes: with `u < F` the free
      segment outgrows any bound while no more memory exists. */
  lemma RoundsDrift(lo: nat, size: nat, n: nat, alignment: nat, u: nat, k: nat)
    requires 0 < alignment && LooseFit(lo, size, n, alignment, u) && u <= F
    ensures Iterate(st => Round(st, n, alignment, u), Single(lo, size), k) == Single(lo, size + Drift(u, k))
  {
    hide LooseFit, Round;
    var f := st => Round(st, n, alignment, u);
    forall j: nat
      ensures f(Single(lo, size + Drift(u, j))) == Single(lo, size + Drift(u, j) + (F - u))
    {
      RoundAdds(lo, size, n, alignment, u, Drift(u, j));
    }
    IterateDrifts(f, lo, size, u, k);
  }

  lemma LooseStaysLoose(lo: nat, size: nat, n: nat, alignment: nat, u: nat, d: nat)
    requires 0 < alignment && LooseFit(lo, size, n, alignment, u)
    ensures LooseFit(lo, size + d, n, alignment, u)
  {
    AlignDownGreatest(Seg(lo, size).End() - n, alignment);
    AlignDownGreatest(Seg(lo, size + d).End() - n, alignment);
  }

  lemma RoundAdds(lo: nat, size: nat, n: nat, alignment: nat, u: nat, d: nat)
    requires 0 < alignment && u <= F && LooseFit(lo, size, n, alignment, u)
    ensures Round(Single(lo, size + d), n, alignment, u) == Single(lo, size + d + (F - u))
  {
    LooseStaysLoose(lo, size, n, alignment, u, d);
    RoundDrifts(lo, size + d, n, alignment, u);
  }

  /** Every legal run, in every region, keeps the heap invariant. */
  ghost predicate AllRunsSafe(u: nat) {
    forall lo: nat, hi: nat, ops: seq<Op> :: Region(lo, hi) && LegalRun(Initial(lo, hi), ops, u) ==>
      Inv(Run(Initial(lo, hi), ops, u), lo, hi, u)
  }

  lemma UnequalHeadersBreak(u: nat, lo: nat, hi: nat) returns (ops: seq<Op>)
    requires u != F && Region(lo, hi) && lo + F + 1 + u < hi - 1
    ensures LegalRun(Initial(lo, hi), ops, u)
    ensures !Inv(Run(Initial(lo, hi), ops, u), lo, hi, u)
  {
    assert Pow2(0) == 1;
    var size := hi - lo - F;
    var st0 := Initial(lo, hi);
    assert LooseFit(lo, size, 1, 1, u);
    var (st1, p) := Allocate(Single(lo, size), 1, 1, u);
    RoundDrifts(lo, size, 1, 1, u);
    var st2 := Single(lo, size + F - u);
    ops := [Alloc(1, 1), Free(p)];
    assert ops[1..] == [Free(p)] && ops[1..][1..] == [];
    assert Step(st0, Alloc(1, 1), u) == st1;
    assert LegalRun(st1, ops[1..], u);
    assert Run(st1, ops[1..], u) == st2;
    if u < F {
      assert st2.segs[0].End() > hi;
    } else {
      assert !Covered(st2, u, hi - 1);
    }
  }

  /** The heap invariant survives every run exactly when the two headers have the same size. */
  lemma SafeExactlyWhenHeadersEqual(u: nat)
    requires u < WORD / 2
    ensures AllRunsSafe(u) <==> u == F
  {
    if u == F {
      forall lo: nat, hi: nat, ops: seq<Op> | Region(lo, hi) && LegalRun(Initial(lo, hi), ops, u)
        ensures Inv(Run(Initial(lo, hi), ops, u), lo, hi, u)
      {
        InitialInv(lo, hi, u);
        RunKeepsInv(Initial(lo, hi), ops, lo, hi, F);
      }
    } else {
      var ops := UnequalHeadersBreak(u, 8, u + 64);
    }
  }

  /** A request that the only free segment holds loosely takes its tail. */
  lemma TailCarved(lo: nat, size: nat, live: map<nat, nat>, n: nat, alignment: nat, u: nat, h: nat)
    requires 0 < n && 0 < alignment && lo + F < h && HeaderIn(Seg(lo, size), n, alignment, u) == h
    ensures Allocate(State([Seg(lo, size)], live, {}), n, alignment, u).0
            == State([Seg(lo, h - lo - F)], live[h + u := Seg(lo, size).End() - h], {})
  {
  }

  /** As built, in every region of at least 80 bytes, four calls of `malloc` and `free` put the
      header of one live block inside the data of another. */
  lemma BuiltOverlap(lo: nat, hi: nat) returns (ops: seq<Op>, p: nat, q: nat)
    requires Region(lo, hi) && lo + 80 <= hi
    ensures LegalRun(Initial(lo, hi), ops, BUILT_U) && |ops| == 4
    ensures forall op :: op in ops && op.Alloc? ==> op.alignment == 8
    ensures var st := Run(Initial(lo, hi), ops, BUILT_U);
            && p in st.live && q in st.live && p != q
            && q <= p - BUILT_U && p <= q - BUILT_U + st.live[q]
  {
    hide LegalRun, Run, Insert, Allocate;
    assert Pow2(3) == 8;
    p := AlignDown(hi - 16, 8);
    var b := p - 24;
    q := p - 8;
    ops := [Alloc(16, 8), Alloc(16, 8), Free(b), Alloc(8, 8)];
    var st1 := State([Seg(lo, p - 4 - lo - F)], map[p := hi - p + 4], {});
    var st2 := State([Seg(lo, p - 28 - lo - F)], map[p := hi - p + 4, b := 24], {});
    var st3 := State([Seg(lo, p - lo - F)], map[p := hi - p + 4], {});
    var st4 := State([Seg(lo, p - 12 - lo - F)], map[p := hi - p + 4, q := 12], {});
    TailCarved(lo, hi - lo - F, map[], 16, 8, 4, p - 4);
    TailCarved(lo, p - 4 - lo - F, st1.live, 16, 8, 4, b - 4);
    TailCarved(lo, p - lo - F, st3.live, 8, 8, 4, q - 4);
    assert Step(Initial(lo, hi), ops[0], 4) == st1;
    assert Step(st1, ops[1], 4) == st2;
    TouchingInsert(Seg(lo, p - 28 - lo - F), Seg(b - 4, 20));
    assert st2.live - {b} == map[p := hi - p + 4];
    assert Step(st2, ops[2], 4) == st3;
    assert Step(st3, ops[3], 4) == st4;
    RunOfFour(Initial(lo, hi), ops, 4, st1, st2, st3);
  }

  lemma RunOfFour(st: State, ops: seq<Op>, u: nat, st1: State, st2: State, st3: State)
    requires |ops| == 4
    requires LegalOp(st, ops[0], u) && Step(st, ops[0], u) == st1
    requires LegalOp(st1, ops[1], u) && Step(st1, ops[1], u) == st2
    requires LegalOp(st2, ops[2], u) && Step(st2, ops[2], u) == st3
    requires LegalOp(st3, ops[3], u)
    ensures LegalRun(st, ops, u) && Run(st, ops, u) == Step(st3, ops[3], u)
  {
    var st4 := Step(st3, ops[3], u);
    assert ops[3..][1..] == [];
    assert ops[2..][1..] == ops[3..];
    assert ops[1..][1..] == ops[2..];
    assert LegalRun(st4, [], u) && Run(st4, [], u) == st4;
    assert LegalRun(st3, ops[3..], u) && Run(st3, ops[3..], u) == st4;
    assert LegalRun(st2, ops[2..], u) && Run(st2, ops[2..], u) == st4;
    assert LegalRun(st1, ops[1..], u) && Run(st1, ops[1..], u) == st4;
  }

  // ---------------------------------------------------------------- one pointer, two owners

  lemma RunPrepends(st: State, op: Op, ops: seq<Op>, u: nat)
    requires LegalOp(st, op, u) && LegalRun(Step(st, op, u), ops, u)
    ensures LegalRun(st, [op] + ops, u) && Run(st, [op] + ops, u) == Run(Step(st, op, u), ops, u)
    ensures Frees([op] + ops) == Frees(ops) + if GivesBack(op) then 1 else 0
  {
    assert ([op] + ops)[1..] == ops;
  }

  /** Beside the live block `p`, with `d` bytes of the only free segment's end at or above `p`. */
  function Beside(lo: nat, p: nat, length: nat, d: int): State
    requires lo + F <= p + d
  {
    State([Seg(lo, p + d - lo - F)], map[p := length], {})
  }

  /** While the segment ends less than 16 bytes above `p`, a round beside `p` moves its end by 4. */
  lemma RoundBeside(lo: nat, p: nat, length: nat, d: int) returns (q: nat)
    requires -4 <= d < 16 && p % 8 == 0 && lo + 40 <= p < WORD
    ensures LegalOp(Beside(lo, p, length, d), Alloc(16, 8), BUILT_U)
    ensures var st := Step(Beside(lo, p, length, d), Alloc(16, 8), BUILT_U);
            q != 0 && LegalOp(st, Free(q), BUILT_U) && Step(st, Free(q), BUILT_U) == Beside(lo, p, length, d + 4)
  {
    hide Allocate, Insert;
    assert Pow2(3) == 8;
    var e := p + d;
    q := AlignDown(e - 16, 8);
    AlignDownGreatest(e - 16, 8);
    var live := map[p := length];
    assert q <= e - 16 < p && q != p;
    TailCarved(lo, e - lo - F, live, 16, 8, BUILT_U, q - BUILT_U);
    var st := State([Seg(lo, q - BUILT_U - lo - F)], live[q := e - (q - BUILT_U)], {});
    assert Step(Beside(lo, p, length, d), Alloc(16, 8), BUILT_U) == st;
    assert st.live - {q} == live;
    TouchingInsert(st.segs[0], Seg(q - BUILT_U, st.live[q] - BUILT_U));
  }

  lemma RoundsBeside(lo: nat, p: nat, length: nat, d: int, k: nat) returns (ops: seq<Op>)
    requires -4 <= d && d + 4 * k <= 16 && p % 8 == 0 && lo + 40 <= p < WORD
    ensures LegalRun(Beside(lo, p, length, d), ops, BUILT_U) && |ops| == 2 * k && Frees(ops) == k
    ensures Run(Beside(lo, p, length, d), ops, BUILT_U) == Beside(lo, p, length, d + 4 * k)
    ensures forall op :: op in ops && op.Alloc? ==> op == Alloc(16, 8)
    decreases k
  {
    hide Beside, Step, LegalOp;
    if k == 0 {
      ops := [];
    } else {
      var st := Beside(lo, p, length, d);
      var q := RoundBeside(lo, p, length, d);
      var rest := RoundsBeside(lo, p, length, d + 4, k - 1);
      RunPrepends(Step(st, Alloc(16, 8), BUILT_U), Free(q), rest, BUILT_U);
      RunPrepends(st, Alloc(16, 8), [Free(q)] + rest, BUILT_U);
      ops := [Alloc(16, 8)] + ([Free(q)] + rest);
    }
  }

  /** As built, in every region of at least 80 bytes: after one call of `malloc` for 16 bytes and
      five rounds of the same call and its `free`, `malloc` returns the first pointer again while
      its owner still has it. */
  lemma BuiltTwoOwners(lo: nat, hi: nat) returns (ops: seq<Op>, p: nat)
    requires Region(lo, hi) && lo + 80 <= hi
    ensures LegalRun(Initial(lo, hi), ops, BUILT_U) && |ops| == 11 && Frees(ops) == 5
    ensures forall op :: op in ops && op.Alloc? ==> op == Alloc(16, 8)
    ensures var st := Run(Initial(lo, hi), ops, BUILT_U);
            && p in st.live && LegalOp(st, Alloc(16, 8), BUILT_U)
            && HandsOutAgain(st, Alloc(16, 8), BUILT_U) && Allocate(st, 16, 8, BUILT_U).1 == p
  {
    hide LegalRun, Run;
    assert Pow2(3) == 8;
    p := AlignDown(hi - 16, 8);
    AlignDownGreatest(hi - 16, 8);
    var length := hi - p + 4;
    FirstBlock(lo, hi, p);
    var rest := RoundsBeside(lo, p, length, -4, 5);
    ops := [Alloc(16, 8)] + rest;
    RunPrepends(Initial(lo, hi), Alloc(16, 8), rest, BUILT_U);
    LastBlock(lo, p, length);
  }

  lemma FirstBlock(lo: nat, hi: nat, p: nat)
    requires Region(lo, hi) && lo + 80 <= hi && p == AlignDown(hi - 16, 8)
    ensures LegalOp(Initial(lo, hi), Alloc(16, 8), BUILT_U) && hi - 24 < p
    ensures Step(Initial(lo, hi), Alloc(16, 8), BUILT_U) == Beside(lo, p, hi - p + 4, -4)
  {
    hide Allocate;
    assert Pow2(3) == 8;
    AlignDownGreatest(hi - 16, 8);
    TailCarved(lo, hi - lo - F, map[], 16, 8, BUILT_U, p - BUILT_U);
    assert map[][p := hi - p + 4] == map[p := hi - p + 4];
  }

  /** Once the segment ends 16 bytes above `p`, the block it hands out is at `p`. */
  lemma LastBlock(lo: nat, p: nat, length: nat)
    requires p % 8 == 0 && lo + 40 <= p
    ensures Allocate(Beside(lo, p, length, 16), 16, 8, BUILT_U).1 == p
  {
    AlignDownGreatest(p, 8);
  }

  // ---------------------------------------------------------------- every free counts

  lemma InsertBytes(segs: seq<Seg>, s: Seg, x: int)
    ensures FreeByte(Insert(segs, s), x) <==> FreeByte(segs, x) || s.addr <= x < s.End()
  {
    hide FreeByte;
    var k := Below(segs, s.addr);
    var segs' := InsertAt(segs, k, s);
    InsertedBytes(segs, k, s, x);
    MergedBytes(segs', k, x);
    if k > 0 {
      MergedBytes(MergeAt(segs', k), k - 1, x);
    }
  }

  /** Giving a block back, at every header size: what becomes free is the block and `F - u` bytes behind
      it (or all of it but its last `u - F` bytes), and nothing else changes. */
  lemma FreeAddsExactly(st: State, p: nat, u: nat, x: int)
    requires p != 0 && p in st.live && u <= p && u <= st.live[p]
    ensures var st' := Deallocate(st, p, u);
            && (FreeByte(st'.segs, x) <==> FreeByte(st.segs, x) || p - u <= x < p - u + st.live[p] + (F - u))
            && st'.live.Keys == st.live.Keys - {p} && (forall q :: q in st'.live ==> st'.live[q] == st.live[q])
            && st'.lost == st.lost
  {
    hide FreeByte, Insert;
    InsertBytes(st.segs, Seg(p - u, st.live[p] - u), x);
  }

  /** A freed segment that reaches into its successor is not fused with it and stays in front of it. */
  lemma OverlapStays(segs: seq<Seg>, s: Seg)
    requires var k := Below(segs, s.addr); k < |segs| && segs[k].addr < s.End()
    ensures !Sorted(Insert(segs, s))
  {
    hide Below, Sorted, MergeAt, InsertAt;
    var k := Below(segs, s.addr);
    var segs' := InsertAt(segs, k, s);
    InsertedInFront(segs, k, s);
    if k > 0 {
      MergeKeepsOverlap(segs', k - 1);
    } else {
      OverlapUnsorted(segs', 0);
    }
  }

  lemma InsertedInFront(segs: seq<Seg>, k: nat, s: Seg)
    requires k < |segs| && segs[k].addr < s.End()
    ensures var segs' := InsertAt(segs, k, s);
            && |segs'| == |segs| + 1 && segs'[k] == s && segs'[k + 1] == segs[k]
            && MergeAt(segs', k) == segs'
  {
  }

  lemma OverlapUnsorted(segs: seq<Seg>, i: nat)
    requires i + 1 < |segs| && segs[i + 1].addr < segs[i].End()
    ensures !Sorted(segs)
  {
  }

  lemma MergeKeepsOverlap(segs: seq<Seg>, i: nat)
    requires i + 2 < |segs| && segs[i + 2].addr < segs[i + 1].End()
    ensures !Sorted(MergeAt(segs, i))
  {
    hide Sorted;
    var r := MergeAt(segs, i);
    var j := if r == segs then i + 1 else i;
    assert r[j].End() == segs[i + 1].End() && r[j + 1] == segs[i + 2];
    OverlapUnsorted(r, j);
  }

  /** A free byte that a block or a lost header owns. */
  lemma SharedByteBreaks(st: State, u: nat, lo: nat, hi: nat, x: int)
    requires FreeByte(st.segs, x) && (UsedByte(st.live, u, x) || LostByte(st.lost, x) || hi <= x)
    ensures !Inv(st, lo, hi, u)
  {
    if Inv(st, lo, hi, u) {
      if x < hi {
        FreeIsTheRest(st, lo, hi, u, x);
      }
      assert false;
    }
  }

  /** With a smaller block header, the freed segment covers the byte behind the block. */
  lemma FreeOverruns(st: State, p: nat, u: nat, lo: nat, hi: nat)
    requires Inv(st, lo, hi, u) && p != 0 && p in st.live && u < F
    ensures !Inv(Deallocate(st, p, u), lo, hi, u)
  {
    hide Sorted, Coalesced, Insert, Below, LostApart, ClearOfLive, ClearOfLost, FreeByte, LostByte;
    var s := Seg(p - u, st.live[p] - u);
    var st' := Deallocate(st, p, u);
    var e := p - u + st.live[p];
    InsertBytes(st.segs, s, e);
    if FreeByte(st.segs, e) {
      NextIsFree(st, p, u, lo, hi);
      OverlapStays(st.segs, s);
    } else {
      if e < hi && UsedByte(st.live, u, e) {
        var q :| q in st.live && q - u <= e < q - u + st.live[q];
        assert q in st'.live && st'.live[q] == st.live[q];
      }
      assert lo <= e;
      assert e < hi ==> Covered(st, u, e);
      SharedByteBreaks(st', u, lo, hi, e);
    }
  }

  lemma NextIsFree(st: State, p: nat, u: nat, lo: nat, hi: nat)
    requires Inv(st, lo, hi, u) && p in st.live && u <= p && FreeByte(st.segs, p - u + st.live[p])
    ensures var k := Below(st.segs, p - u); k < |st.segs| && st.segs[k].addr <= p - u + st.live[p]
  {
    hide BlocksApart, SegsApart, Coalesced, Covered, Sorted, Below;
    var e := p - u + st.live[p];
    var j :| 0 <= j < |st.segs| && st.segs[j].addr <= e < st.segs[j].End();
    BlockOutside(st, p, u, lo, hi, j);
    BelowFirst(st.segs, p - u, j);
  }

  lemma BlockOutside(st: State, p: nat, u: nat, lo: nat, hi: nat, j: nat)
    requires SegsApart(st, lo, hi, u) && p in st.live && j < |st.segs|
    ensures Apart(p - u, p - u + st.live[p], st.segs[j].addr, st.segs[j].End())
  {
    hide ClearOfLost;
    assert ClearOfLive(st.live, u, st.segs[j].addr, st.segs[j].End());
  }

  lemma BelowFirst(segs: seq<Seg>, a: nat, j: nat)
    requires Sorted(segs) && j < |segs| && a <= segs[j].addr
    ensures Below(segs, a) <= j && segs[Below(segs, a)].addr <= segs[j].addr
  {
    hide Below;
    var k := Below(segs, a);
    assert k <= j;
  }

  /** With a larger one, the last byte of the block belongs to nobody. */
  lemma FreeFallsShort(st: State, p: nat, u: nat, lo: nat, hi: nat)
    requires Inv(st, lo, hi, u) && p != 0 && p in st.live && F < u
    ensures !Inv(Deallocate(st, p, u), lo, hi, u)
  {
    hide Sorted, Coalesced, LostApart, Insert;
    var s := Seg(p - u, st.live[p] - u);
    var st' := Deallocate(st, p, u);
    var x := p - u + st.live[p] - 1;
    InsertBytes(st.segs, s, x);
    assert UsedByte(st.live, u, x);
    FreeIsTheRest(st, lo, hi, u, x);
    OnlyOwner(st, p, u, lo, hi, x);
    assert !Covered(st', u, x);
  }

  lemma OnlyOwner(st: State, p: nat, u: nat, lo: nat, hi: nat, x: int)
    requires BlocksApart(st.live, st.lost, lo, hi, u) && p in st.live && p - u <= x < p - u + st.live[p]
    ensures !UsedByte(st.live - {p}, u, x) && !LostByte(st.lost, x)
  {
    forall q | q in st.live - {p}
      ensures !(q - u <= x < q - u + (st.live - {p})[q])
    {
      assert q in st.live && Apart(p - u, p - u + st.live[p], q - u, q - u + st.live[q]);
    }
    forall a | a in st.lost
      ensures !(a <= x < a + F)
    {
      assert ClearOfLive(st.live, u, a, a + F);
    }
  }

  /** From any sound heap, giving any block back leaves a sound heap if and only if the two headers
      have the same size. */
  lemma FreeSafeExactlyWhenHeadersEqual(st: State, p: nat, u: nat, lo: nat, hi: nat)
    requires Inv(st, lo, hi, u) && p != 0 && p in st.live
    ensures u <= p && u <= st.live[p] && (Inv(Deallocate(st, p, u), lo, hi, u) <==> u == F)
  {
    if u < F {
      FreeOverruns(st, p, u, lo, hi);
    } else if u > F {
      FreeFallsShort(st, p, u, lo, hi);
    } else {
      DeallocateKeepsInv(st, p, lo, hi);
    }
  }

  /** The heap is sound in every state that the run passes through. */
  ghost predicate SoundThroughout(st: State, ops: seq<Op>, u: nat, lo: nat, hi: nat)
    requires LegalRun(st, ops, u)
    decreases |ops|
  {
    Inv(st, lo, hi, u) && (ops != [] ==> SoundThroughout(Step(st, ops[0], u), ops[1..], u, lo, hi))
  }

  /** A run from a sound heap is sound throughout if and only if the two headers have the same size
      or the run gives no block back. */
  lemma {:induction false} RunSoundExactly(st: State, ops: seq<Op>, u: nat, lo: nat, hi: nat)
    requires Inv(st, lo, hi, u) && LegalRun(st, ops, u)
    ensures SoundThroughout(st, ops, u, lo, hi) <==> u == F || Frees(ops) == 0
    decreases |ops|
  {
    hide Inv, Allocate, Insert;
    if ops != [] {
      match ops[0] {
        case Alloc(n, alignment) => AllocateKeepsInv(st, n, alignment, u, lo, hi);
        case Free(p) =>
          if p != 0 {
            FreeSafeExactlyWhenHeadersEqual(st, p, u, lo, hi);
          }
        case Write(_, _) =>
      }
      if Inv(Step(st, ops[0], u), lo, hi, u) {
        RunSoundExactly(Step(st, ops[0], u), ops[1..], u, lo, hi);
      }
    }
  }
}
