/** Theorems about whole runs of `allocate` and `deallocate`. */
module HeapRuns {
  import opened Words
  import opened FreeList

  /** A call of the allocator, or a client's store at address `a` through its pointer `p`. */
  datatype Op = Alloc(n: nat, alignment: nat) | Free(p: nat) | Write(p: nat, a: nat)

  /** What the allocator asks of its callers: power-of-two alignments, sizes whose block
      does not overflow a word, only live pointers (or NULL) given back, and stores only
      inside the own block. */
  ghost predicate LegalOp(st: State, op: Op, u: nat) {
    match op
    case Alloc(n, alignment) => IsAlignment(alignment) && n + u + alignment - 1 < WORD
    case Free(p) => p == 0 || (p in st.live && u <= p && u <= st.live[p])
    case Write(p, a) => p in st.live && p <= a < p - u + st.live[p]
  }

  ghost function Step(st: State, op: Op, u: nat): State
    requires LegalOp(st, op, u)
  {
    match op
    case Alloc(n, alignment) => Allocate(st, n, alignment, u).0
    case Free(p) => Deallocate(st, p, u)
    case Write(_, _) => st
  }

  ghost predicate LegalRun(st: State, ops: seq<Op>, u: nat)
    decreases |ops|
  {
    ops == [] || (LegalOp(st, ops[0], u) && LegalRun(Step(st, ops[0], u), ops[1..], u))
  }

  ghost function Run(st: State, ops: seq<Op>, u: nat): State
    requires LegalRun(st, ops, u)
    decreases |ops|
  {
    if ops == [] then st else Run(Step(st, ops[0], u), ops[1..], u)
  }

  // ---------------------------------------------------------------- safety

  /** The operation gives a block back. */
  predicate GivesBack(op: Op) {
    op.Free? && op.p != 0
  }

  function Frees(ops: seq<Op>): nat {
    if ops == [] then 0 else (if GivesBack(ops[0]) then 1 else 0) + Frees(ops[1..])
  }

  lemma StepKeepsInv(st: State, op: Op, lo: nat, hi: nat, u: nat)
    requires Inv(st, lo, hi, u) && LegalOp(st, op, u) && (u == F || !GivesBack(op))
    ensures Inv(Step(st, op, u), lo, hi, u)
  {
    match op
    case Alloc(n, alignment) => AllocateKeepsInv(st, n, alignment, u, lo, hi);
    case Free(p) =>
      if p != 0 {
        DeallocateKeepsInv(st, p, lo, hi);
      }
    case Write(_, _) =>
  }

  lemma InitialInv(lo: nat, hi: nat, u: nat)
    requires Region(lo, hi)
    ensures Inv(Initial(lo, hi), lo, hi, u)
  {
    var st := Initial(lo, hi);
    forall x | lo <= x < hi
      ensures Covered(st, u, x)
    {
      assert st.segs[0].addr <= x < st.segs[0].End();
    }
  }

  /** Heap safety. When both headers have the same size, or no block is given back, every run keeps
      free segments, live blocks and lost headers an exact partition of the region, with the free
      list sorted by address and no two free segments touching. */
  lemma {:induction false} RunKeepsInv(st: State, ops: seq<Op>, lo: nat, hi: nat, u: nat)
    requires Inv(st, lo, hi, u) && LegalRun(st, ops, u) && (u == F || Frees(ops) == 0)
    ensures Inv(Run(st, ops, u), lo, hi, u)
    decreases |ops|
  {
    hide Inv, Step;
    if ops != [] {
      StepKeepsInv(st, ops[0], lo, hi, u);
      RunKeepsInv(Step(st, ops[0], u), ops[1..], lo, hi, u);
    }
  }

  // ---------------------------------------------------------------- lost headers

  ghost predicate ExactFit(st: State, op: Op, u: nat)
    requires LegalOp(st, op, u)
  {
    op.Alloc? && op.n != 0 &&
    var i := FirstFit(st.segs, op.n, op.alignment, u);
    i < |st.segs| && HeaderIn(st.segs[i], op.n, op.alignment, u) == st.segs[i].addr + F
  }

  ghost function ExactFits(st: State, ops: seq<Op>, u: nat): nat
    requires LegalRun(st, ops, u)
    decreases |ops|
  {
    if ops == [] then 0
    else (if ExactFit(st, ops[0], u) then 1 else 0) + ExactFits(Step(st, ops[0], u), ops[1..], u)
  }

  /** An exact fit whose segment starts where a header was lost before. */
  ghost predicate LosesAgain(st: State, op: Op, u: nat)
    requires LegalOp(st, op, u)
  {
    ExactFit(st, op, u) && st.segs[FirstFit(st.segs, op.n, op.alignment, u)].addr in st.lost
  }

  ghost function LostAgain(st: State, ops: seq<Op>, u: nat): nat
    requires LegalRun(st, ops, u)
    decreases |ops|
  {
    if ops == [] then 0
    else (if LosesAgain(st, ops[0], u) then 1 else 0) + LostAgain(Step(st, ops[0], u), ops[1..], u)
  }

  lemma StepLoses(st: State, op: Op, u: nat)
    requires LegalOp(st, op, u)
    ensures |Step(st, op, u).lost| + (if LosesAgain(st, op, u) then 1 else 0)
            == |st.lost| + if ExactFit(st, op, u) then 1 else 0
  {
    hide FirstFit, AlignDown;
    if op.Alloc? && op.n != 0 && FirstFit(st.segs, op.n, op.alignment, u) < |st.segs| {
      var s := st.segs[FirstFit(st.segs, op.n, op.alignment, u)];
      AlignDownGreatest(s.End() - op.n, op.alignment);
      assert s.addr in st.lost ==> st.lost + {s.addr} == st.lost;
    }
  }

  /** Each exact-fit allocation loses one free header, and nothing else does: in every run, whatever
      the header sizes. Only a header lost a second time adds no new address. */
  lemma {:induction false} LostHeadersAreExactFits(st: State, ops: seq<Op>, u: nat)
    requires LegalRun(st, ops, u)
    ensures |Run(st, ops, u).lost| + LostAgain(st, ops, u) == |st.lost| + ExactFits(st, ops, u)
    decreases |ops|
  {
    hide ExactFit, LosesAgain, Step;
    if ops != [] {
      StepLoses(st, ops[0], u);
      LostHeadersAreExactFits(Step(st, ops[0], u), ops[1..], u);
    }
  }

  // ---------------------------------------------------------------- pointers handed out twice

  /** The pointer that an operation returns is one that a client already owns. */
  ghost predicate HandsOutAgain(st: State, op: Op, u: nat)
    requires LegalOp(st, op, u)
  {
    op.Alloc? && var p := Allocate(st, op.n, op.alignment, u).1; p != 0 && p in st.live
  }

  /** The length of the block whose pointer an operation hands out again. */
  ghost function Reissue(st: State, op: Op, u: nat): nat
    requires LegalOp(st, op, u)
  {
    if HandsOutAgain(st, op, u) then st.live[Allocate(st, op.n, op.alignment, u).1] else 0
  }

  ghost function Reissues(st: State, ops: seq<Op>, u: nat): nat
    requires LegalRun(st, ops, u)
    decreases |ops|
  {
    if ops == [] then 0
    else Reissue(st, ops[0], u) + Reissues(Step(st, ops[0], u), ops[1..], u)
  }

  /** No operation of the run returns a pointer that a client owns at that time. */
  ghost predicate PointersNew(st: State, ops: seq<Op>, u: nat)
    requires LegalRun(st, ops, u)
    decreases |ops|
  {
    ops == [] || (!HandsOutAgain(st, ops[0], u) && PointersNew(Step(st, ops[0], u), ops[1..], u))
  }

  ghost predicate NoneEmpty(live: map<nat, nat>) {
    forall p :: p in live ==> 0 < live[p]
  }

  lemma StepNoneEmpty(st: State, op: Op, u: nat)
    requires LegalOp(st, op, u) && NoneEmpty(st.live)
    ensures NoneEmpty(Step(st, op, u).live)
  {
    hide FirstFit, AlignDown, Insert;
    if op.Alloc? && op.n != 0 && FirstFit(st.segs, op.n, op.alignment, u) < |st.segs| {
      AlignDownGreatest(st.segs[FirstFit(st.segs, op.n, op.alignment, u)].End() - op.n, op.alignment);
    }
  }

  lemma {:induction false} NothingReissuedExactly(st: State, ops: seq<Op>, u: nat)
    requires LegalRun(st, ops, u) && NoneEmpty(st.live)
    ensures Reissues(st, ops, u) == 0 <==> PointersNew(st, ops, u)
    decreases |ops|
  {
    hide HandsOutAgain, Step;
    if ops != [] {
      assert HandsOutAgain(st, ops[0], u) <==> Reissue(st, ops[0], u) > 0 by {
        HandsOutBlock(st, ops[0], u);
      }
      StepNoneEmpty(st, ops[0], u);
      NothingReissuedExactly(Step(st, ops[0], u), ops[1..], u);
    }
  }

  lemma HandsOutBlock(st: State, op: Op, u: nat)
    requires LegalOp(st, op, u) && NoneEmpty(st.live)
    ensures HandsOutAgain(st, op, u) <==> Reissue(st, op, u) > 0
  {
    hide Allocate;
  }

  lemma InvIsFresh(st: State, op: Op, u: nat, lo: nat, hi: nat)
    requires Inv(st, lo, hi, u) && LegalOp(st, op, u)
    ensures !HandsOutAgain(st, op, u) && !LosesAgain(st, op, u)
  {
    hide FirstFit, AlignDown, Coalesced, Sorted, Covered, BlocksApart, SegsApart, Carve;
    if op.Alloc? && op.n != 0 {
      var i := FirstFit(st.segs, op.n, op.alignment, u);
      if i < |st.segs| {
        AlignDownGreatest(st.segs[i].End() - op.n, op.alignment);
        CarveFresh(st, i, HeaderIn(st.segs[i], op.n, op.alignment, u), u, lo, hi);
      }
    }
  }

  /** While the heap invariant holds, no pointer is handed out twice and no header is lost twice. */
  lemma {:induction false} SafeRunsAreFresh(st: State, ops: seq<Op>, lo: nat, hi: nat, u: nat)
    requires Inv(st, lo, hi, u) && LegalRun(st, ops, u) && (u == F || Frees(ops) == 0)
    ensures Reissues(st, ops, u) == 0 && PointersNew(st, ops, u) && LostAgain(st, ops, u) == 0
    decreases |ops|
  {
    hide Inv, HandsOutAgain, LosesAgain, Step;
    if ops != [] {
      InvIsFresh(st, ops[0], u, lo, hi);
      StepKeepsInv(st, ops[0], lo, hi, u);
      SafeRunsAreFresh(Step(st, ops[0], u), ops[1..], lo, hi, u);
    }
  }

  // ---------------------------------------------------------------- byte accounting

  function FreeTotal(segs: seq<Seg>): nat {
    if segs == [] then 0 else F + segs[0].size + FreeTotal(segs[1..])
  }

  ghost function LiveTotal(live: map<nat, nat>): nat {
    if live == map[] then 0
    else
      var p :| p in live;
      live[p] + LiveTotal(live - {p})
  }

  ghost function Total(st: State): nat {
    FreeTotal(st.segs) + LiveTotal(st.live)
  }

  lemma {:induction false} FreeTotalConcat(a: seq<Seg>, b: seq<Seg>)
    ensures FreeTotal(a + b) == FreeTotal(a) + FreeTotal(b)
  {
    if a == [] {
      assert a + b == b;
    } else {
      assert (a + b)[1..] == a[1..] + b;
      FreeTotalConcat(a[1..], b);
    }
  }

  lemma FreeTotalAt(segs: seq<Seg>, i: nat)
    requires i < |segs|
    ensures FreeTotal(segs) == FreeTotal(segs[..i]) + (F + segs[i].size) + FreeTotal(segs[i + 1..])
  {
    FreeTotalConcat(segs[..i], segs[i..]);
    assert segs[..i] + segs[i..] == segs;
    assert segs[i..][1..] == segs[i + 1..];
  }

  lemma FreeTotalAround(a: seq<Seg>, s: Seg, b: seq<Seg>)
    ensures FreeTotal(a + [s] + b) == FreeTotal(a) + (F + s.size) + FreeTotal(b)
  {
    var segs := a + [s] + b;
    FreeTotalAt(segs, |a|);
    assert segs[..|a|] == a && segs[|a| + 1..] == b;
  }

  lemma InsertTotal(segs: seq<Seg>, s: Seg)
    ensures FreeTotal(Insert(segs, s)) == FreeTotal(segs) + F + s.size
  {
    var k := Below(segs, s.addr);
    FreeTotalConcat(segs[..k], segs[k..]);
    assert segs[..k] + segs[k..] == segs;
    FreeTotalAround(segs[..k], s, segs[k..]);
    var segs' := InsertAt(segs, k, s);
    MergeTotal(segs', k);
    if k > 0 {
      MergeTotal(MergeAt(segs', k), k - 1);
    }
  }

  lemma MergeTotal(segs: seq<Seg>, k: nat)
    requires k < |segs|
    ensures FreeTotal(MergeAt(segs, k)) == FreeTotal(segs)
  {
    if MergeAt(segs, k) != segs {
      var s := Seg(segs[k].addr, segs[k].size + F + segs[k + 1].size);
      FreeTotalAt(segs, k);
      FreeTotalAt(segs[k + 1..], 0);
      assert segs[k + 1..][1..] == segs[k + 2..];
      FreeTotalAround(segs[..k], s, segs[k + 2..]);
    }
  }

  lemma {:induction false} LiveTotalPick(live: map<nat, nat>, p: nat)
    requires p in live
    ensures LiveTotal(live) == live[p] + LiveTotal(live - {p})
    decreases |live|
  {
    var q :| q in live && LiveTotal(live) == live[q] + LiveTotal(live - {q});
    if q != p {
      LiveTotalPick(live - {q}, p);
      LiveTotalPick(live - {p}, q);
      assert live - {q} - {p} == live - {p} - {q};
    }
  }

  lemma CarveFreeTotal(st: State, i: nat, h: nat, u: nat)
    requires i < |st.segs| && st.segs[i].addr + F <= h <= st.segs[i].End()
    ensures var lostNow := if h == st.segs[i].addr + F then F else 0;
            FreeTotal(Carve(st, i, h, u).segs) == FreeTotal(st.segs) - (st.segs[i].End() - h) - lostNow
  {
    var s := st.segs[i];
    FreeTotalAt(st.segs, i);
    if h == s.addr + F {
      FreeTotalConcat(st.segs[..i], st.segs[i + 1..]);
    } else {
      FreeTotalAround(st.segs[..i], Seg(s.addr, h - (s.addr + F)), st.segs[i + 1..]);
      assert Carve(st, i, h, u).segs == st.segs[..i] + [Seg(s.addr, h - (s.addr + F))] + st.segs[i + 1..];
    }
  }

  /** Overwriting the entry of a pointer replaces its old length, if it had one. */
  lemma LiveTotalUpdate(live: map<nat, nat>, p: nat, length: nat)
    ensures LiveTotal(live[p := length]) + (if p in live then live[p] else 0) == LiveTotal(live) + length
  {
    hide LiveTotal;
    LiveTotalPick(live[p := length], p);
    assert live[p := length] - {p} == live - {p};
    if p in live {
      LiveTotalPick(live, p);
    } else {
      assert live - {p} == live;
    }
  }

  lemma CarveTotal(st: State, i: nat, h: nat, u: nat)
    requires i < |st.segs| && st.segs[i].addr + F <= h <= st.segs[i].End()
    ensures Total(Carve(st, i, h, u)) + (if h == st.segs[i].addr + F then F else 0)
            + (if h + u in st.live then st.live[h + u] else 0) == Total(st)
  {
    hide FreeTotal, LiveTotal;
    CarveFreeTotal(st, i, h, u);
    LiveTotalUpdate(st.live, h + u, st.segs[i].End() - h);
  }

  lemma DeallocateTotal(st: State, p: nat, u: nat)
    requires p != 0 && p in st.live && u <= p && u <= st.live[p]
    ensures Total(Deallocate(st, p, u)) == Total(st) + F - u
  {
    hide FreeTotal, LiveTotal, Insert;
    InsertTotal(st.segs, Seg(p - u, st.live[p] - u));
    LiveTotalPick(st.live, p);
  }

  /** What an operation adds to the heap's account of itself. */
  function Gain(op: Op, u: nat): int {
    if GivesBack(op) then F - u else 0
  }

  function Gains(ops: seq<Op>, u: nat): int {
    if ops == [] then 0 else Gain(ops[0], u) + Gains(ops[1..], u)
  }

  lemma {:induction false} GainsAreFrees(ops: seq<Op>, u: nat)
    ensures Gains(ops, u) == Frees(ops) * (F - u)
  {
    if ops != [] {
      GainsAreFrees(ops[1..], u);
    }
  }

  lemma StepTotal(st: State, op: Op, u: nat)
    requires LegalOp(st, op, u)
    ensures Total(Step(st, op, u)) + (if ExactFit(st, op, u) then F else 0) + Reissue(st, op, u)
            == Total(st) + Gain(op, u)
  {
    hide Total, Insert, FirstFit, AlignDown, Carve;
    match op
    case Alloc(n, alignment) =>
      var i := FirstFit(st.segs, n, alignment, u);
      if n != 0 && i < |st.segs| {
        AlignDownGreatest(st.segs[i].End() - n, alignment);
        CarveTotal(st, i, HeaderIn(st.segs[i], n, alignment, u), u);
      }
    case Free(p) =>
      if p != 0 {
        DeallocateTotal(st, p, u);
      }
    case Write(_, _) =>
  }

  lemma {:induction false} RunTotal(st: State, ops: seq<Op>, u: nat)
    requires LegalRun(st, ops, u)
    ensures Total(Run(st, ops, u)) + F * ExactFits(st, ops, u) + Reissues(st, ops, u) == Total(st) + Gains(ops, u)
    decreases |ops|
  {
    hide Total, Step, Reissue, ExactFit, Gain;
    if ops != [] {
      StepTotal(st, ops[0], u);
      RunTotal(Step(st, ops[0], u), ops[1..], u);
    }
  }

  /** The account of every run from boot, for any header size: the bytes in free segments, in live
      blocks, in the header lost to each exact fit and in the blocks whose pointer was handed out
      again add up to the region plus `F - u` bytes for every block given back. */
  lemma BytesAccounted(ops: seq<Op>, lo: nat, hi: nat, u: nat)
    requires Region(lo, hi) && LegalRun(Initial(lo, hi), ops, u)
    ensures var st := Run(Initial(lo, hi), ops, u);
            FreeTotal(st.segs) + LiveTotal(st.live) + F * ExactFits(Initial(lo, hi), ops, u)
            + Reissues(Initial(lo, hi), ops, u)
            == hi - lo + Frees(ops) * (F - u)
  {
    hide FreeTotal, LiveTotal, ExactFits, Run, LegalRun, Reissues, Gains, Frees;
    InitialTotal(lo, hi);
    RunTotal(Initial(lo, hi), ops, u);
    GainsAreFrees(ops, u);
  }

  /** The last term vanishes, so that each block given back adds exactly `F - u` bytes to what the
      heap believes it has, if and only if no client is handed a pointer that is already owned. */
  lemma GrowthIsDriftExactly(ops: seq<Op>, lo: nat, hi: nat, u: nat)
    requires Region(lo, hi) && LegalRun(Initial(lo, hi), ops, u)
    ensures var st := Run(Initial(lo, hi), ops, u);
            FreeTotal(st.segs) + LiveTotal(st.live) + F * ExactFits(Initial(lo, hi), ops, u)
            == hi - lo + Frees(ops) * (F - u)
            <==> PointersNew(Initial(lo, hi), ops, u)
  {
    hide FreeTotal, LiveTotal, ExactFits, Run, LegalRun, Reissues, PointersNew, Frees;
    BytesAccounted(ops, lo, hi, u);
    NothingReissuedExactly(Initial(lo, hi), ops, u);
  }

  /** Conservation. With equal headers, or with nothing given back, the bytes add up to the region
      after every run from boot. */
  lemma BytesConserved(ops: seq<Op>, lo: nat, hi: nat, u: nat)
    requires Region(lo, hi) && LegalRun(Initial(lo, hi), ops, u) && (u == F || Frees(ops) == 0)
    ensures var st := Run(Initial(lo, hi), ops, u);
            FreeTotal(st.segs) + LiveTotal(st.live) + F * ExactFits(Initial(lo, hi), ops, u) == hi - lo
  {
    hide Inv, FreeTotal, LiveTotal, ExactFits, Run, LegalRun, Reissues, PointersNew, LostAgain, Frees;
    InitialInv(lo, hi, u);
    SafeRunsAreFresh(Initial(lo, hi), ops, lo, hi, u);
    BytesAccounted(ops, lo, hi, u);
  }

  lemma InitialTotal(lo: nat, hi: nat)
    requires Region(lo, hi)
    ensures Total(Initial(lo, hi)) == hi - lo
  {
    FreeTotalAround([], Seg(lo, hi - lo - F), []);
    assert Initial(lo, hi).segs == [] + [Seg(lo, hi - lo - F)] + [];
  }

  // ---------------------------------------------------------------- the free list is canonical

  /** The free bytes are exactly the bytes of the region that no block and no lost header owns. */
  lemma FreeIsTheRest(st: State, lo: nat, hi: nat, u: nat, x: int)
    requires Inv(st, lo, hi, u)
    ensures FreeByte(st.segs, x) <==> lo <= x < hi && !UsedByte(st.live, u, x) && !LostByte(st.lost, x)
  {
    if FreeByte(st.segs, x) {
      var i :| 0 <= i < |st.segs| && st.segs[i].addr <= x < st.segs[i].End();
      assert Unowned(st.live, st.lost, u, st.segs[i].addr, st.segs[i].End());
    } else if lo <= x < hi {
      assert Covered(st, u, x);
    }
  }

  lemma FirstSegment(a: seq<Seg>, b: seq<Seg>)
    requires a != [] && Sorted(a) && Sorted(b) && Coalesced(a) && Coalesced(b)
    requires forall x :: FreeByte(a, x) <==> FreeByte(b, x)
    ensures b != [] && b[0].addr <= a[0].addr && (a[0].addr == b[0].addr ==> b[0].End() <= a[0].End())
  {
    assert FreeByte(a, a[0].addr) by {
      assert a[0].addr <= a[0].addr < a[0].End();
    }
    assert FreeByte(b, a[0].addr);
    var e := a[0].End();
    assert !FreeByte(a, e) by {
      assert Gap(a, 0);
      assert forall i :: 1 < i < |a| ==> a[1].End() <= a[i].addr;
    }
    assert b[0].addr <= e < b[0].End() ==> FreeByte(b, e);
  }

  lemma TailBytes(a: seq<Seg>, x: int)
    requires a != [] && Sorted(a)
    ensures FreeByte(a[1..], x) <==> FreeByte(a, x) && a[0].End() <= x
  {
  }

  lemma TailShape(a: seq<Seg>)
    requires a != [] && Sorted(a) && Coalesced(a)
    ensures Sorted(a[1..]) && Coalesced(a[1..])
  {
    forall i: nat | i < |a[1..]|
      ensures Gap(a[1..], i)
    {
      assert Gap(a, i + 1);
    }
  }

  /** A sorted list of segments that do not touch is determined by the bytes it covers. */
  lemma {:induction false} SameBytesSameList(a: seq<Seg>, b: seq<Seg>)
    requires Sorted(a) && Sorted(b) && Coalesced(a) && Coalesced(b)
    requires forall x :: FreeByte(a, x) <==> FreeByte(b, x)
    ensures a == b
    decreases |a|
  {
    if a == [] {
      if b != [] {
        FirstSegment(b, a);
      }
    } else {
      FirstSegment(a, b);
      FirstSegment(b, a);
      assert a[0] == b[0];
      TailShape(a);
      TailShape(b);
      forall x
        ensures FreeByte(a[1..], x) <==> FreeByte(b[1..], x)
      {
        TailBytes(a, x);
        TailBytes(b, x);
      }
      SameBytesSameList(a[1..], b[1..]);
      assert a == [a[0]] + a[1..] && b == [b[0]] + b[1..];
    }
  }

  /** The free list depends only on which blocks are live and which headers are lost: the order
      in which blocks were handed out and given back leaves no trace. */
  lemma FreeListIsCanonical(st: State, st': State, lo: nat, hi: nat, u: nat)
    requires Inv(st, lo, hi, u) && Inv(st', lo, hi, u)
    requires st.live == st'.live && st.lost == st'.lost
    ensures st == st'
  {
    forall x
      ensures FreeByte(st.segs, x) <==> FreeByte(st'.segs, x)
    {
      FreeIsTheRest(st, lo, hi, u, x);
      FreeIsTheRest(st', lo, hi, u, x);
    }
    SameBytesSameList(st.segs, st'.segs);
  }

  /** Restoration. When every block has been given back, in any order, the free list is the single
      boot segment with its original size if and only if no allocation was an exact fit. */
  lemma FreeingAllRestoresExactly(ops: seq<Op>, lo: nat, hi: nat)
    requires Region(lo, hi) && LegalRun(Initial(lo, hi), ops, F)
    requires Run(Initial(lo, hi), ops, F).live == map[]
    ensures Run(Initial(lo, hi), ops, F).segs == Initial(lo, hi).segs
            <==> ExactFits(Initial(lo, hi), ops, F) == 0
  {
    hide Inv, Run, LegalRun, Reissues, PointersNew, LostAgain, ExactFits;
    var st := Initial(lo, hi);
    InitialInv(lo, hi, F);
    RunKeepsInv(st, ops, lo, hi, F);
    SafeRunsAreFresh(st, ops, lo, hi, F);
    LostHeadersAreExactFits(st, ops, F);
    if ExactFits(st, ops, F) == 0 {
      FreeListIsCanonical(Run(st, ops, F), st, lo, hi, F);
    } else {
      BytesConserved(ops, lo, hi, F);
      InitialTotal(lo, hi);
    }
  }
}
