/** The allocator of src/memory.c as it runs: headers are words in memory, the free list is a
    chain of addresses, and every address computation is done in 32 bits. Each method refines
    one function of the module FreeList. */
module Allocator {
  import opened Words
  import opened FreeList

  // ---------------------------------------------------------------- the fit test in 32 bits

  datatype Fit = Reject | Accept(header: nat, length: nat)

  /** The test of `allocate`, computed with wrap-around. */
  function WordFit(s: Seg, n: nat, alignment: nat, u: nat): Fit
    requires 0 < alignment <= WORD
  {
    var segmentEnd := Add32(Add32(s.addr, F), s.size);
    WordFitAt(s, segmentEnd, Mask32(Sub32(segmentEnd, n), alignment), u)
  }

  /** Its second half, from the aligned data address on. */
  function WordFitAt(s: Seg, segmentEnd: nat, aligned: nat, u: nat): Fit {
    var header := Sub32(aligned, u);
    if Add32(s.addr, F) <= header && Sub32(segmentEnd, header) <= s.size
    then Accept(header, Sub32(segmentEnd, header))
    else Reject
  }

  /** The same test over unbounded integers. */
  function ExactTest(s: Seg, n: nat, alignment: nat, u: nat): Fit
    requires 0 < alignment
  {
    if Fits(s, n, alignment, u)
    then
      AlignDownGreatest(s.End() - n, alignment);
      Accept(HeaderIn(s, n, alignment, u), s.End() - HeaderIn(s, n, alignment, u))
    else Reject
  }

  /** The header address passes below zero and comes back inside the segment. */
  predicate WrapsBack(s: Seg, n: nat, alignment: nat, u: nat)
    requires 0 < alignment
  {
    HeaderIn(s, n, alignment, u) < 0 &&
    s.addr + F <= Sub32(AlignDown(Sub32(s.End(), n), alignment), u) <= s.End()
  }

  lemma SmallMod(x: int)
    ensures 0 <= x < WORD ==> x % WORD == x
    ensures 0 <= x + WORD < WORD ==> x % WORD == x + WORD
  {
  }

  /** The two comparisons together say that the header lies between the data start and the end. */
  lemma WordFitAtAccepts(s: Seg, aligned: nat, u: nat)
    requires s.End() < WORD && aligned < WORD && u < WORD
    ensures var header := Sub32(aligned, u);
            WordFitAt(s, s.End(), aligned, u) ==
            if s.addr + F <= header <= s.End() then Accept(header, s.End() - header) else Reject
  {
  }

  lemma AlignedWord(x: nat, alignment: nat)
    requires x < WORD && 0 < alignment
    ensures 0 <= AlignDown(x, alignment) <= x
  {
  }

  /** The 32-bit test gives the answer of the unbounded one, on every request, exactly when
      the header address does not wrap back into the segment. */
  lemma WordFitExactly(s: Seg, n: nat, alignment: nat, u: nat)
    requires s.End() < WORD && n < WORD && u < WORD && IsAlignment(alignment)
    ensures 0 < alignment <= WORD
    ensures WordFit(s, n, alignment, u) == ExactTest(s, n, alignment, u) <==> !WrapsBack(s, n, alignment, u)
  {
    hide And, AlignDown, WordFitAt;
    var e := s.End();
    var t := Sub32(e, n);
    MaskAligns(t, alignment);
    AlignedWord(t, alignment);
    var d: nat := AlignDown(t, alignment);
    SmallMod(e);
    SmallMod(s.addr + F);
    assert WordFit(s, n, alignment, u) == WordFitAt(s, e, d, u);
    WordFitAtAccepts(s, d, u);
    AlignDownGreatest(e - n, alignment);
    SmallMod(e - n);
    SmallMod(d - u);
    if n <= e {
      assert t == e - n;
    } else {
      assert HeaderIn(s, n, alignment, u) < 0;
    }
  }

  /** Every request within the allocator's limits meets that condition. */
  lemma WordFitAgrees(s: Seg, n: nat, alignment: nat, u: nat)
    requires s.End() < WORD && IsAlignment(alignment) && n + u + alignment - 1 < WORD
    ensures 0 < alignment <= WORD
    ensures WordFit(s, n, alignment, u) == ExactTest(s, n, alignment, u)
  {
    hide And, AlignDown, WordFitAt, WordFit;
    MaskAligns(0, alignment);
    WordFitExactly(s, n, alignment, u);
    var e := s.End();
    SmallMod(e - n);
    var t := Sub32(e, n);
    AlignDownGreatest(t, alignment);
    AlignDownGreatest(e - n, alignment);
    AlignedWord(t, alignment);
    SmallMod(AlignDown(t, alignment) - u);
  }

  /** A request at or beyond the limit: the segment that ends one byte below `n` grants it. */
  lemma LimitWitness(n: nat, alignment: nat, u: nat) returns (s: Seg)
    requires n < WORD && u <= 0x4000_0000 && IsAlignment(alignment) && n + u + alignment - 1 >= WORD
    ensures 0 < alignment <= WORD && s.End() < WORD
    ensures WordFit(s, n, alignment, u) != ExactTest(s, n, alignment, u)
  {
    hide And, AlignDown, WordFit, ExactTest;
    AlignmentOfLast(alignment);
    s := Seg(8, n - 17);
    SmallMod(s.End() - n);
    AlignDownGreatest(s.End() - n, alignment);
    SmallMod(WORD - alignment - u);
    assert WrapsBack(s, n, alignment, u);
    WordFitExactly(s, n, alignment, u);
  }

  /** The caller's side of it: the 32-bit test agrees with the unbounded one on every segment that
      does not itself wrap if and only if size, header and alignment together stay below 2^32. */
  lemma TestAgreesExactlyBelowLimit(n: nat, alignment: nat, u: nat)
    requires n < WORD && u <= 0x4000_0000 && IsAlignment(alignment)
    ensures 0 < alignment <= WORD
    ensures (forall s: Seg :: s.End() < WORD ==> WordFit(s, n, alignment, u) == ExactTest(s, n, alignment, u))
            <==> n + u + alignment - 1 < WORD
  {
    hide WordFit, ExactTest;
    AlignmentOfLast(alignment);
    if n + u + alignment - 1 < WORD {
      forall s: Seg | s.End() < WORD
        ensures WordFit(s, n, alignment, u) == ExactTest(s, n, alignment, u)
      {
        WordFitAgrees(s, n, alignment, u);
      }
    } else {
      var s := LimitWitness(n, alignment, u);
    }
  }

  /** What such a grant looks like: any segment of at least `u` bytes that ends below the last word
      address grants `WORD - 1` bytes, with a block of `u - 1` bytes, header included. */
  lemma HugeRequestGranted(s: Seg, n: nat, alignment: nat, u: nat)
    requires s.End() + 1 < WORD && 0 < u <= s.size && n == WORD - 1 && alignment == 1
    ensures WordFit(s, n, alignment, u) == Accept(s.End() + 1 - u, u - 1)
    ensures ExactTest(s, n, alignment, u) == Reject
  {
    hide And, AlignDown, WordFitAt;
    var e := s.End();
    assert Pow2(0) == alignment;
    SmallMod(s.addr + F);
    SmallMod(e);
    SmallMod(e - n);
    MaskAligns(e + 1, alignment);
    AlignDownGreatest(e + 1, alignment);
    AlignDownGreatest(e - n, alignment);
    WordFitAtAccepts(s, e + 1, u);
    SmallMod(e + 1 - u);
  }

  // ---------------------------------------------------------------- the boot segment

  /** The segment that `init_allocator` lays over a memory region, above the address `reserved`,
      computed in 32 bits. */
  function BootSegment(base: nat, length: nat, reserved: nat): Seg {
    var heapStart := Mask32(Add32(reserved, 7), 8);
    Seg(heapStart, Sub32(Sub32(length, Sub32(heapStart, base)), F))
  }

  /** The first multiple of 8 at or above `x`, over unbounded integers. */
  function Above8(x: nat): nat {
    AlignDownGreatest(x + 7, 8);
    AlignDown(x + 7, 8)
  }

  /** Whenever the code builds the segment (the region reaches above `reserved`), the segment runs
      from the first multiple of 8 to the end of the region if and only if a header fits there;
      otherwise an address or its size has wrapped. */
  lemma BootSegmentFitsExactly(base: nat, length: nat, reserved: nat)
    requires base < WORD && length < WORD && base <= reserved < Add32(base, length)
    ensures base + length < WORD && reserved <= Above8(reserved) < reserved + 8 && Above8(reserved) % 8 == 0
    ensures var s := BootSegment(base, length, reserved);
            s.addr == Above8(reserved) && s.End() == base + length <==> Above8(reserved) + F <= base + length
  {
    hide And, AlignDown;
    assert Pow2(3) == 8;
    AlignDownGreatest(reserved + 7, 8);
    SmallMod(base + length);
    assert base + length < WORD by {
      assert base + length >= WORD ==> Add32(base, length) == base + length - WORD by {
        SmallMod(base + length - WORD);
      }
    }
    SmallMod(reserved + 7);
    SmallMod(reserved + 7 - WORD);
    MaskAligns(Add32(reserved, 7), 8);
    AlignDownGreatest(Add32(reserved, 7), 8);
    var start := AlignDown(Add32(reserved, 7), 8);
    if reserved + 7 < WORD {
      BootSize(base, length, start);
    }
  }

  lemma BootSize(base: nat, length: nat, start: int)
    requires base <= start && base + length < WORD && start < WORD
    ensures var size := Sub32(Sub32(length, Sub32(start, base)), F);
            start + F + size == base + length <==> start + F <= base + length
  {
    SmallMod(start - base);
    SmallMod(length - (start - base));
    SmallMod(length - (start - base) - F);
    SmallMod(length - (start - base) + WORD - F);
  }

  // ---------------------------------------------------------------- memory

  /** A word store: it replaces the word at `a` and destroys every word it overlaps. */
  function Store(m: map<nat, nat>, a: nat, v: nat): map<nat, nat> {
    (map k | k in m && Apart(k, k + 4, a, a + 4) :: m[k])[a := v]
  }

  /** A client's byte store at `a`: every word that contains the byte becomes unknown. */
  function Scribble(m: map<nat, nat>, a: nat): map<nat, nat> {
    map k | k in m && Apart(k, k + 4, a, a + 1) :: m[k]
  }

  /** The link that leads to segment `i`, 0 past the end of the list. */
  function LinkTo(segs: seq<Seg>, i: nat): nat {
    if i < |segs| then segs[i].addr else 0
  }

  /** The header of a free segment: its size, then the link to the next one. */
  ghost predicate HeaderAt(m: map<nat, nat>, s: Seg, link: nat) {
    && s.addr in m && m[s.addr] == s.size
    && s.addr + 4 in m && m[s.addr + 4] == link
  }

  /** The chain that starts at `first` in memory is the list `segs`. */
  ghost predicate Chain(m: map<nat, nat>, first: nat, segs: seq<Seg>) {
    && first == LinkTo(segs, 0)
    && forall i: nat :: i < |segs| ==> Linked(m, segs, i)
  }

  ghost predicate Linked(m: map<nat, nat>, segs: seq<Seg>, i: nat)
    requires i < |segs|
  {
    0 < segs[i].addr && HeaderAt(m, segs[i], LinkTo(segs, i + 1))
  }

  /** The header of every live block holds the length of the block. */
  ghost predicate Headers(m: map<nat, nat>, live: map<nat, nat>, u: nat) {
    forall p :: p in live ==> u < p && p - u in m && m[p - u] == live[p]
  }

  /** Header words are apart: free headers `F` bytes, block headers one word. */
  ghost predicate Spaced(segs: seq<Seg>) {
    forall i, j :: 0 <= i < j < |segs| ==> segs[i].addr + F <= segs[j].addr
  }

  ghost predicate HeadersApart(live: map<nat, nat>, u: nat) {
    && (forall p :: p in live ==> u < p)
    && (forall p, q :: p in live && q in live && p != q ==> Apart(p - u, p - u + 4, q - u, q - u + 4))
  }

  /** The range is apart from the header word of every live block other than `except`. */
  ghost predicate ClearOfHeaders(live: map<nat, nat>, u: nat, except: nat, from: nat, to: nat) {
    forall p :: p in live && p != except ==> Apart(p - u, p - u + 4, from, to)
  }

  /** What `allocate` relies on: free extents apart from each other and from block headers. */
  ghost predicate Separate(st: State, u: nat) {
    && Sorted(st.segs)
    && HeadersApart(st.live, u)
    && forall i :: 0 <= i < |st.segs| ==>
         0 < st.segs[i].addr && st.segs[i].End() < WORD &&
         ClearOfHeaders(st.live, u, 0, st.segs[i].addr, st.segs[i].End())
  }

  /** What `deallocate` relies on besides: a free header fits where the block begins. */
  ghost predicate Room(st: State, u: nat, p: nat)
    requires p in st.live
  {
    && u < p && u <= st.live[p] && p - u + F + (st.live[p] - u) < WORD
    && ClearOfHeaders(st.live, u, p, p - u, p - u + F)
    && forall i :: 0 <= i < |st.segs| ==> Apart(p - u, p - u + F, st.segs[i].addr, st.segs[i].addr + F)
  }

  /** The heap invariant provides the first for every block header of at least a word, and the second
      for every block that has room for a free header and whose freed segment ends below 2^32; with
      equal headers that is every block. */
  lemma InvGivesSeparate(st: State, lo: nat, hi: nat, u: nat)
    requires Region(lo, hi) && Inv(st, lo, hi, u) && 4 <= u
    ensures Separate(st, u)
    ensures forall p :: p in st.live && F <= st.live[p] && p - u + F + (st.live[p] - u) < WORD ==> Room(st, u, p)
    ensures u == F ==> forall p :: p in st.live ==> Room(st, u, p)
  {
    hide LostApart, ClearOfLost, Coalesced, Covered;
    forall i | 0 <= i < |st.segs|
      ensures ClearOfHeaders(st.live, u, 0, st.segs[i].addr, st.segs[i].End())
      ensures forall p :: p in st.live && F <= st.live[p] ==>
                Apart(p - u, p - u + F, st.segs[i].addr, st.segs[i].addr + F)
    {
      assert ClearOfLive(st.live, u, st.segs[i].addr, st.segs[i].End());
    }
    LiveRooms(st.live, lo, hi, u);
  }

  lemma LiveRooms(live: map<nat, nat>, lo: nat, hi: nat, u: nat)
    requires 0 < lo && LiveApart(live, lo, hi, u) && 4 <= u
    ensures HeadersApart(live, u)
    ensures forall p :: p in live && F <= live[p] ==> ClearOfHeaders(live, u, p, p - u, p - u + F)
  {
    hide LiveApart;
    forall p | p in live
      ensures u < p && (F <= live[p] ==> ClearOfHeaders(live, u, p, p - u, p - u + F))
      ensures forall q :: q in live && p != q ==> Apart(p - u, p - u + 4, q - u, q - u + 4)
    {
      RoomFor(live, lo, hi, u, p);
    }
  }

  lemma RoomFor(live: map<nat, nat>, lo: nat, hi: nat, u: nat, p: nat)
    requires 0 < lo && LiveApart(live, lo, hi, u) && 4 <= u && p in live
    ensures u < p
    ensures forall q :: q in live && p != q ==> Apart(p - u, p - u + 4, q - u, q - u + 4)
    ensures F <= live[p] ==> forall q :: q in live && p != q ==> Apart(q - u, q - u + 4, p - u, p - u + F)
  {
    forall q | q in live && p != q
      ensures Apart(p - u, p - u + live[p], q - u, q - u + 4)
    {
      assert Apart(p - u, p - u + live[p], q - u, q - u + live[q]);
    }
  }

  lemma SeparateAt(st: State, u: nat, i: nat)
    requires Separate(st, u) && i < |st.segs|
    ensures 0 < st.segs[i].addr && st.segs[i].End() < WORD
  {
  }

  /** After a word store exactly the stored word and the old words four bytes away are readable, and
      after a byte store exactly the old words that do not contain the byte; they read as before. */
  lemma StoreReads(m: map<nat, nat>, a: nat, v: nat, k: nat)
    ensures k in Store(m, a, v) <==> k == a || (k in m && (k + 4 <= a || a + 4 <= k))
    ensures k in Store(m, a, v) ==> Store(m, a, v)[k] == if k == a then v else m[k]
    ensures k in Scribble(m, a) <==> k in m && (k + 3 < a || a < k)
    ensures k in Scribble(m, a) ==> Scribble(m, a)[k] == m[k]
  {
  }

  lemma StoreOutsideChain(m: map<nat, nat>, first: nat, segs: seq<Seg>, a: nat, v: nat)
    requires Chain(m, first, segs)
    requires forall i :: 0 <= i < |segs| ==> Apart(a, a + 4, segs[i].addr, segs[i].addr + F)
    ensures Chain(Store(m, a, v), first, segs)
  {
    forall i: nat | i < |segs|
      ensures Linked(Store(m, a, v), segs, i)
    {
      assert Linked(m, segs, i);
    }
  }

  /** Writing a segment's size word. */
  lemma Resize(m: map<nat, nat>, first: nat, segs: seq<Seg>, i: nat, size: nat)
    requires Chain(m, first, segs) && Spaced(segs) && i < |segs|
    ensures Chain(Store(m, segs[i].addr, size), first, segs[i := Seg(segs[i].addr, size)])
  {
    var m' := Store(m, segs[i].addr, size);
    var segs' := segs[i := Seg(segs[i].addr, size)];
    forall j: nat | j < |segs'|
      ensures Linked(m', segs', j)
    {
      assert Linked(m, segs, j);
    }
  }

  /** Bypassing segment `i`, through the list head or through its predecessor's link word. */
  lemma Bypass(m: map<nat, nat>, first: nat, segs: seq<Seg>, i: nat)
    requires Chain(m, first, segs) && Spaced(segs) && i < |segs|
    ensures var segs' := segs[..i] + segs[i + 1..];
            if i == 0 then Chain(m, LinkTo(segs, 1), segs')
            else Chain(Store(m, segs[i - 1].addr + 4, LinkTo(segs, i + 1)), first, segs')
  {
    var segs' := segs[..i] + segs[i + 1..];
    var m' := if i == 0 then m else Store(m, segs[i - 1].addr + 4, LinkTo(segs, i + 1));
    forall j: nat | j < |segs'|
      ensures Linked(m', segs', j)
    {
      assert Linked(m, segs, if j < i then j else j + 1);
      LinkSkips(segs, i, j);
    }
    assert first == LinkTo(segs, 0);
  }

  lemma LinkSkips(segs: seq<Seg>, i: nat, j: nat)
    requires i < |segs| && j + 1 < |segs|
    ensures var segs' := segs[..i] + segs[i + 1..];
            && segs'[j] == segs[if j < i then j else j + 1]
            && LinkTo(segs', j + 1) == LinkTo(segs, if j + 1 < i then j + 1 else j + 2)
  {
  }

  /** Linking a segment whose header words are in place in front of segment `k`. */
  lemma LinkIn(m: map<nat, nat>, first: nat, segs: seq<Seg>, k: nat, s: Seg)
    requires Chain(m, first, segs) && k <= |segs| && Spaced(InsertAt(segs, k, s))
    requires 0 < s.addr && HeaderAt(m, s, LinkTo(segs, k))
    ensures if k == 0 then Chain(m, s.addr, InsertAt(segs, k, s))
            else Chain(Store(m, segs[k - 1].addr + 4, s.addr), first, InsertAt(segs, k, s))
  {
    var segs' := InsertAt(segs, k, s);
    var m' := if k == 0 then m else Store(m, segs[k - 1].addr + 4, s.addr);
    assert segs'[k] == s;
    assert k > 0 ==> segs'[k - 1] == segs[k - 1];
    forall j: nat | j < |segs'|
      ensures Linked(m', segs', j)
    {
      if j != k {
        var i := if j < k then j else j - 1;
        assert segs'[j] == segs[i];
        assert Linked(m, segs, i);
      }
    }
  }

  /** What the loop learns from the test on one segment. */
  lemma TestDecides(s: Seg, n: nat, alignment: nat, u: nat)
    requires s.End() < WORD && IsAlignment(alignment) && n + u + alignment - 1 < WORD
    ensures 0 < alignment <= WORD
    ensures var fit := WordFit(s, n, alignment, u);
            && (fit.Accept? <==> Fits(s, n, alignment, u))
            && (fit.Accept? ==>
                  && fit.header == HeaderIn(s, n, alignment, u)
                  && s.addr + F <= fit.header && fit.header + u + n <= s.End()
                  && fit.length == s.End() - fit.header)
  {
    WordFitAgrees(s, n, alignment, u);
    AlignDownGreatest(s.End() - n, alignment);
  }

  /** The state and pointer of `allocate`, once the loop has found where it stops. */
  lemma SearchEnds(st: State, n: nat, alignment: nat, u: nat, i: nat)
    requires 0 < alignment && 0 < n && i <= |st.segs|
    requires i < |st.segs| ==> Fits(st.segs[i], n, alignment, u)
    requires forall k :: 0 <= k < i ==> !Fits(st.segs[k], n, alignment, u)
    ensures i == |st.segs| ==> FreeList.Allocate(st, n, alignment, u) == (st, 0)
    ensures i < |st.segs| ==>
              var h := HeaderIn(st.segs[i], n, alignment, u);
              0 <= h <= st.segs[i].End() &&
              FreeList.Allocate(st, n, alignment, u) == (Carve(st, i, h, u), h + u)
  {
  }

  /** A block header inside segment `i` is apart from all headers in memory. */
  lemma HeaderClear(st: State, i: nat, h: nat, u: nat)
    requires Separate(st, u) && i < |st.segs| && st.segs[i].addr + F <= h && h + 4 <= st.segs[i].End()
    ensures forall j :: 0 <= j < |st.segs| ==> Apart(h, h + 4, st.segs[j].addr, st.segs[j].addr + F)
    ensures ClearOfHeaders(st.live, u, 0, h, h + 4) && h + u !in st.live
  {
  }

  lemma HeaderWritten(m: map<nat, nat>, live: map<nat, nat>, u: nat, h: nat, length: nat)
    requires Headers(m, live, u) && ClearOfHeaders(live, u, 0, h, h + 4) && 0 < h
    ensures Headers(Store(m, h, length), live[h + u := length], u)
  {
  }

  /** The header of free segment `j` stays apart from block headers once one is written at `h`. */
  lemma CellClear(st: State, i: nat, h: nat, u: nat, length: nat, j: nat)
    requires Separate(st, u) && i < |st.segs| && st.segs[i].addr + F <= h && h + 4 <= st.segs[i].End()
    requires j < |st.segs|
    ensures ClearOfHeaders(st.live[h + u := length], u, 0, st.segs[j].addr, st.segs[j].addr + F)
  {
  }

  /** Memory after the accepting branch on segment `i`. */
  function CarvedMemory(m: map<nat, nat>, segs: seq<Seg>, i: nat, h: nat): map<nat, nat>
    requires i < |segs| && segs[i].addr + F <= h <= segs[i].End()
  {
    CarvedLinks(Store(m, h, segs[i].End() - h), segs, i, h)
  }

  function CarvedLinks(m: map<nat, nat>, segs: seq<Seg>, i: nat, h: nat): map<nat, nat>
    requires i < |segs| && segs[i].addr + F <= h
  {
    if h != segs[i].addr + F then Store(m, segs[i].addr, h - (segs[i].addr + F))
    else if i == 0 then m
    else Store(m, segs[i - 1].addr + 4, LinkTo(segs, i + 1))
  }

  /** The list head after it. */
  function CarvedFirst(first: nat, segs: seq<Seg>, i: nat, h: nat): nat
    requires i < |segs|
  {
    if h == segs[i].addr + F && i == 0 then LinkTo(segs, 1) else first
  }

  lemma CarvedChain(m: map<nat, nat>, first: nat, st: State, i: nat, h: nat, u: nat)
    requires Spaced(st.segs) && i < |st.segs| && st.segs[i].addr + F <= h <= st.segs[i].End()
    requires Chain(m, first, st.segs)
    ensures Chain(CarvedLinks(m, st.segs, i, h), CarvedFirst(first, st.segs, i, h), Carve(st, i, h, u).segs)
  {
    if h == st.segs[i].addr + F {
      Bypass(m, first, st.segs, i);
    } else {
      Resize(m, first, st.segs, i, h - (st.segs[i].addr + F));
    }
  }

  lemma CarvedHeaders(m: map<nat, nat>, st: State, i: nat, h: nat, u: nat)
    requires 4 <= u && Separate(st, u) && i < |st.segs| && st.segs[i].addr + F <= h && h + u < st.segs[i].End()
    requires Headers(m, st.live, u)
    ensures Headers(CarvedMemory(m, st.segs, i, h), Carve(st, i, h, u).live, u)
  {
    hide Headers, Store, Separate;
    var length := st.segs[i].End() - h;
    HeaderClear(st, i, h, u);
    HeaderWritten(m, st.live, u, h, length);
    var m1, live' := Store(m, h, length), st.live[h + u := length];
    if h != st.segs[i].addr + F {
      CellClear(st, i, h, u, length, i);
      StoreInCell(m1, live', u, st.segs[i].addr, st.segs[i].addr, h - (st.segs[i].addr + F));
    } else if i > 0 {
      CellClear(st, i, h, u, length, i - 1);
      StoreInCell(m1, live', u, st.segs[i - 1].addr, st.segs[i - 1].addr + 4, LinkTo(st.segs, i + 1));
    }
  }

  lemma CarvedValid(m: map<nat, nat>, first: nat, st: State, i: nat, h: nat, u: nat)
    requires 4 <= u && Separate(st, u) && i < |st.segs| && st.segs[i].addr + F <= h && h + u < st.segs[i].End()
    requires Chain(m, first, st.segs) && Headers(m, st.live, u)
    ensures var m1 := Store(m, h, st.segs[i].End() - h);
            && Chain(m1, first, st.segs)
            && Chain(CarvedLinks(m1, st.segs, i, h), CarvedFirst(first, st.segs, i, h), Carve(st, i, h, u).segs)
            && Headers(CarvedLinks(m1, st.segs, i, h), Carve(st, i, h, u).live, u)
  {
    hide Chain, Headers, CarvedLinks, CarvedFirst;
    HeaderClear(st, i, h, u);
    StoreOutsideChain(m, first, st.segs, h, st.segs[i].End() - h);
    CarvedChain(Store(m, h, st.segs[i].End() - h), first, st, i, h, u);
    CarvedHeaders(m, st, i, h, u);
  }

  // ---------------------------------------------------------------- giving a block back

  ghost predicate CellsClear(segs: seq<Seg>, live: map<nat, nat>, u: nat) {
    forall i :: 0 <= i < |segs| ==> ClearOfHeaders(live, u, 0, segs[i].addr, segs[i].addr + F)
  }

  /** What the links and sizes of a free list need in order to be written safely. */
  ghost predicate Tidy(segs: seq<Seg>, live: map<nat, nat>, u: nat) {
    && Spaced(segs)
    && CellsClear(segs, live, u)
    && forall i :: 0 <= i < |segs| ==> 0 < segs[i].addr && segs[i].End() < WORD
  }

  lemma InsertedTidy(st: State, u: nat, p: nat, k: nat)
    requires Separate(st, u) && p in st.live && Room(st, u, p) && Slot(st.segs, k, p - u)
    ensures Tidy(InsertAt(st.segs, k, Seg(p - u, st.live[p] - u)), st.live - {p}, u)
  {
    hide HeadersApart, Sorted, Spaced;
    var s, live' := Seg(p - u, st.live[p] - u), st.live - {p};
    var segs' := InsertAt(st.segs, k, s);
    forall i | 0 <= i < |segs'|
      ensures ClearOfHeaders(live', u, 0, segs'[i].addr, segs'[i].addr + F)
      ensures 0 < segs'[i].addr && segs'[i].End() < WORD
    {
      if i != k {
        var j := if i < k then i else i - 1;
        assert segs'[i] == st.segs[j];
        assert ClearOfHeaders(st.live, u, 0, st.segs[j].addr, st.segs[j].End());
      }
    }
    InsertedSpaced(st.segs, k, s);
  }

  lemma InsertedSpaced(segs: seq<Seg>, k: nat, s: Seg)
    requires Sorted(segs) && Slot(segs, k, s.addr)
    requires forall i :: 0 <= i < |segs| ==> Apart(s.addr, s.addr + F, segs[i].addr, segs[i].addr + F)
    ensures Spaced(InsertAt(segs, k, s))
  {
  }

  lemma MergedTidy(segs: seq<Seg>, k: nat, live: map<nat, nat>, u: nat)
    requires Tidy(segs, live, u) && k < |segs|
    ensures Tidy(MergeAt(segs, k), live, u)
  {
    hide ClearOfHeaders;
    var segs' := MergeAt(segs, k);
    if segs' != segs {
      assert segs'[k].End() == segs[k + 1].End();
      assert forall i :: 0 <= i < |segs'| ==> segs'[i].addr == segs[if i <= k then i else i + 1].addr;
      assert forall i :: 0 <= i < |segs'| && i != k ==> segs'[i] == segs[if i <= k then i else i + 1];
    }
  }

  /** Storing the fused size and the bypassing link. */
  lemma AbsorbedChain(m: map<nat, nat>, first: nat, segs: seq<Seg>, k: nat, live: map<nat, nat>, u: nat)
    requires Chain(m, first, segs) && Tidy(segs, live, u) && Touch(segs, k)
    ensures var m' := Store(m, segs[k].addr, segs[k].size + F + segs[k + 1].size);
            Chain(Store(m', segs[k].addr + 4, LinkTo(segs, k + 2)), first, MergeAt(segs, k))
  {
    hide Chain, CellsClear, Store;
    var s := Seg(segs[k].addr, segs[k].size + F + segs[k + 1].size);
    var segs1 := segs[k := s];
    Resize(m, first, segs, k, s.size);
    Bypass(Store(m, s.addr, s.size), first, segs1, k + 1);
    assert segs1[..k + 1] + segs1[k + 2..] == MergeAt(segs, k);
    assert LinkTo(segs1, k + 2) == LinkTo(segs, k + 2);
  }

  lemma StoreInCell(m: map<nat, nat>, live: map<nat, nat>, u: nat, a: nat, b: nat, v: nat)
    requires Headers(m, live, u) && ClearOfHeaders(live, u, 0, a, a + F) && (b == a || b == a + 4)
    ensures Headers(Store(m, b, v), live, u)
  {
  }

  /** The two words of the header of segment `k`. */
  lemma Node(m: map<nat, nat>, first: nat, segs: seq<Seg>, k: nat)
    requires Chain(m, first, segs) && k < |segs|
    ensures 0 < segs[k].addr
    ensures segs[k].addr in m && m[segs[k].addr] == segs[k].size
    ensures segs[k].addr + 4 in m && m[segs[k].addr + 4] == LinkTo(segs, k + 1)
  {
    assert Linked(m, segs, k);
  }

  ghost predicate Touch(segs: seq<Seg>, k: nat) {
    k + 1 < |segs| && segs[k].End() == segs[k + 1].addr
  }

  lemma AbsorbedHeaders(m: map<nat, nat>, segs: seq<Seg>, k: nat, live: map<nat, nat>, u: nat, size: nat, link: nat)
    requires Headers(m, live, u) && Tidy(segs, live, u) && k < |segs|
    ensures Headers(Store(Store(m, segs[k].addr, size), segs[k].addr + 4, link), live, u)
  {
  }

  lemma AbsorbedReads(m: map<nat, nat>, first: nat, segs: seq<Seg>, k: nat, live: map<nat, nat>, u: nat, size: nat)
    requires Chain(m, first, segs) && Tidy(segs, live, u) && Touch(segs, k)
    ensures segs[k].size + F + segs[k + 1].size < WORD
    ensures var m' := Store(m, segs[k].addr, size);
            segs[k + 1].addr + 4 in m' && m'[segs[k + 1].addr + 4] == LinkTo(segs, k + 2)
  {
    hide Chain, Store;
    Node(m, first, segs, k + 1);
    StoreReads(m, segs[k].addr, size, segs[k + 1].addr + 4);
  }

  lemma TidyBounds(segs: seq<Seg>, live: map<nat, nat>, u: nat, k: nat)
    requires Tidy(segs, live, u) && k < |segs|
    ensures 0 < segs[k].addr && segs[k].End() < WORD
    ensures LinkTo(segs, k + 1) == 0 <==> k + 1 == |segs|
    ensures Touch(segs, k) <==> LinkTo(segs, k + 1) != 0 && LinkTo(segs, k + 1) == segs[k].End()
    ensures !Touch(segs, k) ==> MergeAt(segs, k) == segs
  {
  }

  lemma HeaderOf(m: map<nat, nat>, st: State, u: nat, p: nat)
    requires Headers(m, st.live, u) && p in st.live && Room(st, u, p)
    ensures u < p && p - u < WORD && p - u in m && m[p - u] == st.live[p] && u <= st.live[p] < WORD + u
  {
  }

  lemma FreedChain(m: map<nat, nat>, first: nat, st: State, u: nat, p: nat, size: nat, link: nat)
    requires Chain(m, first, st.segs) && p in st.live && Room(st, u, p)
    ensures var m' := Store(Store(m, p - u, size), p - u + 4, link);
            && Chain(m', first, st.segs)
            && HeaderAt(m', Seg(p - u, size), link)
  {
    hide Chain;
    StoreOutsideChain(m, first, st.segs, p - u, size);
    StoreOutsideChain(Store(m, p - u, size), first, st.segs, p - u + 4, link);
  }

  lemma FreedHeaders(m: map<nat, nat>, st: State, u: nat, p: nat, size: nat, link: nat)
    requires Headers(m, st.live, u) && p in st.live && Room(st, u, p)
    ensures Headers(Store(Store(m, p - u, size), p - u + 4, link), st.live - {p}, u)
  {
  }

  /** The block's own link word, then the word that leads to it. */
  lemma LinkedBlock(m: map<nat, nat>, first: nat, st: State, u: nat, p: nat, k: nat)
    requires Chain(m, first, st.segs) && Headers(m, st.live - {p}, u) && Separate(st, u)
    requires p in st.live && Room(st, u, p) && Slot(st.segs, k, p - u)
    requires HeaderAt(m, Seg(p - u, st.live[p] - u), 0)
    ensures var segs' := InsertAt(st.segs, k, Seg(p - u, st.live[p] - u));
            var m1 := Store(m, p - u + 4, LinkTo(st.segs, k));
            && Chain(if k == 0 then m1 else Store(m1, st.segs[k - 1].addr + 4, p - u),
                     if k == 0 then p - u else first, segs')
            && Headers(if k == 0 then m1 else Store(m1, st.segs[k - 1].addr + 4, p - u), st.live - {p}, u)
  {
    hide Chain, Headers;
    var freed, live' := Seg(p - u, st.live[p] - u), st.live - {p};
    var m1 := Store(m, p - u + 4, LinkTo(st.segs, k));
    InsertedTidy(st, u, p, k);
    StoreOutsideChain(m, first, st.segs, p - u + 4, LinkTo(st.segs, k));
    InsertedCell(st.segs, k, freed, live', u);
    StoreInCell(m, live', u, p - u, p - u + 4, LinkTo(st.segs, k));
    LinkIn(m1, first, st.segs, k, freed);
    if k > 0 {
      StoreInCell(m1, live', u, st.segs[k - 1].addr, st.segs[k - 1].addr + 4, p - u);
    }
  }

  lemma InsertedCell(segs: seq<Seg>, k: nat, s: Seg, live: map<nat, nat>, u: nat)
    requires k <= |segs| && Tidy(InsertAt(segs, k, s), live, u)
    ensures ClearOfHeaders(live, u, 0, s.addr, s.addr + F)
    ensures k > 0 ==> ClearOfHeaders(live, u, 0, segs[k - 1].addr, segs[k - 1].addr + F)
  {
    hide ClearOfHeaders;
    assert InsertAt(segs, k, s)[k] == s;
    assert k > 0 ==> InsertAt(segs, k, s)[k - 1] == segs[k - 1];
  }

  lemma PrevIsNull(m: map<nat, nat>, first: nat, segs: seq<Seg>, k: nat)
    requires Chain(m, first, segs) && k <= |segs|
    ensures k > 0 ==> segs[k - 1].addr != 0
  {
    if k > 0 {
      Node(m, first, segs, k - 1);
    }
  }

  lemma ChainStart(m: map<nat, nat>, first: nat, segs: seq<Seg>)
    requires Chain(m, first, segs)
    ensures first == LinkTo(segs, 0)
  {
  }

  /** Where `deallocate` finds the freed block and its neighbours. */
  lemma InsertEnds(segs: seq<Seg>, k: nat, s: Seg)
    requires Slot(segs, k, s.addr)
    ensures Insert(segs, s) == Fuse(InsertAt(segs, k, s), k)
    ensures |InsertAt(segs, k, s)| > k && InsertAt(segs, k, s)[k] == s
    ensures LinkTo(InsertAt(segs, k, s), k + 1) == LinkTo(segs, k)
    ensures k > 0 ==>
              var fused := MergeAt(InsertAt(segs, k, s), k);
              |fused| > k && fused[k - 1] == segs[k - 1] && LinkTo(fused, k) == s.addr
  {
  }

  lemma ScribbledChain(m: map<nat, nat>, first: nat, st: State, p: nat, a: nat, u: nat, lo: nat, hi: nat)
    requires Chain(m, first, st.segs) && Inv(st, lo, hi, u)
    requires p in st.live && p <= a < p - u + st.live[p]
    ensures Chain(Scribble(m, a), first, st.segs)
  {
    hide BlocksApart, Sorted, Covered, Coalesced;
    forall i: nat | i < |st.segs|
      ensures Linked(Scribble(m, a), st.segs, i)
    {
      assert Linked(m, st.segs, i);
      assert Unowned(st.live, st.lost, u, st.segs[i].addr, st.segs[i].End());
    }
  }

  lemma ScribbledHeaders(m: map<nat, nat>, st: State, p: nat, a: nat, u: nat, lo: nat, hi: nat)
    requires Headers(m, st.live, u) && Inv(st, lo, hi, u) && 4 <= u
    requires p in st.live && p <= a < p - u + st.live[p]
    ensures Headers(Scribble(m, a), st.live, u)
  {
    hide LostApart, Sorted, Covered, Coalesced, SegsApart;
    forall q | q in st.live
      ensures Apart(q - u, q - u + 4, a, a + 1)
    {
      assert p != q ==> Apart(p - u, p - u + st.live[p], q - u, q - u + st.live[q]);
    }
  }

  class Heap {
    /** sizeof(UsedSegment) */
    const u: nat
    var firstFree: nat
    var mem: map<nat, nat>
    ghost var st: State

    ghost predicate Valid()
      reads this
    {
      && 4 <= u < WORD
      && Chain(mem, firstFree, st.segs)
      && Headers(mem, st.live, u)
    }

    /** The single segment that `init_allocator` builds over `[lo, hi)`. */
    constructor (usedHeader: nat, lo: nat, hi: nat)
      requires 4 <= usedHeader < WORD && Region(lo, hi)
      ensures Valid() && u == usedHeader && st == Initial(lo, hi)
    {
      u := usedHeader;
      firstFree := lo;
      mem := Store(Store(map[], lo, Sub32(hi - lo, F)), lo + 4, 0);
      st := Initial(lo, hi);
    }

    method Allocate(n: nat, alignment: nat) returns (p: nat)
      requires Valid() && Separate(st, u)
      requires IsAlignment(alignment) && n + u + alignment - 1 < WORD
      modifies this
      ensures Valid() && 0 < alignment
      ensures (st, p) == FreeList.Allocate(old(st), n, alignment, u)
    {
      hide Chain, Headers, Separate, Fits, WordFit;
      MaskAligns(0, alignment);
      if n == 0 {
        return 0;
      }
      var prev := 0;
      var current := firstFree;
      ghost var i := 0;
      ChainStart(mem, firstFree, st.segs);
      while current != 0
        invariant i <= |st.segs| && current == LinkTo(st.segs, i)
        invariant prev == if i == 0 then 0 else st.segs[i - 1].addr
        invariant forall k :: 0 <= k < i ==> !Fits(st.segs[k], n, alignment, u)
        invariant unchanged(this)
        decreases |st.segs| - i
      {
        Node(mem, firstFree, st.segs, i);
        SeparateAt(st, u, i);
        var fit := WordFit(Seg(current, mem[current]), n, alignment, u);
        TestDecides(st.segs[i], n, alignment, u);
        if fit.Accept? {
          SearchEnds(st, n, alignment, u, i);
          CarveTail(prev, current, fit.header, fit.length, i);
          return fit.header + u;
        }
        prev := current;
        current := mem[current + 4];
        i := i + 1;
      }
      if i < |st.segs| {
        SeparateAt(st, u, i);
      }
      SearchEnds(st, n, alignment, u, i);
      return 0;
    }

    /** The accepting branch: write the block header, then shrink or unlink the segment. */
    method CarveTail(prev: nat, current: nat, header: nat, length: nat, ghost i: nat)
      requires Valid() && Separate(st, u)
      requires i < |st.segs| && current == st.segs[i].addr
      requires prev == if i == 0 then 0 else st.segs[i - 1].addr
      requires current + F <= header && header + u < st.segs[i].End() && length == st.segs[i].End() - header
      modifies this
      ensures Valid() && st == Carve(old(st), i, header, u)
    {
      hide Chain, Headers, Separate, CarvedLinks, CarvedFirst, Store;
      SeparateAt(st, u, i);
      PrevIsNull(mem, firstFree, st.segs, i);
      CarvedValid(mem, firstFree, st, i, header, u);
      mem := Store(mem, header, length);
      Node(mem, firstFree, st.segs, i);
      ShrinkOrUnlink(prev, current, length, st.segs, i, header);
      st := Carve(st, i, header, u);
    }

    method ShrinkOrUnlink(prev: nat, current: nat, length: nat, ghost segs: seq<Seg>, ghost i: nat, ghost header: nat)
      requires i < |segs| && current == segs[i].addr
      requires current in mem && mem[current] == segs[i].size
      requires current + 4 in mem && mem[current + 4] == LinkTo(segs, i + 1)
      requires prev == (if i == 0 then 0 else segs[i - 1].addr) && (prev == 0 <==> i == 0)
      requires current + F <= header <= segs[i].End() < WORD && length == segs[i].End() - header
      modifies this`mem, this`firstFree
      ensures mem == CarvedLinks(old(mem), segs, i, header)
      ensures firstFree == CarvedFirst(old(firstFree), segs, i, header)
    {
      SmallMod(mem[current] - length);
      var remaining := Sub32(mem[current], length);
      if remaining == 0 {
        if prev == 0 {
          firstFree := mem[current + 4];
        } else {
          mem := Store(mem, prev + 4, mem[current + 4]);
        }
      } else {
        mem := Store(mem, current, remaining);
      }
    }

    /** Fuse segment `k`, at `first`, with its successor at `second` when the two touch. */
    method Absorb(first: nat, second: nat, ghost segs: seq<Seg>, ghost k: nat, ghost live: map<nat, nat>)
      requires Chain(mem, firstFree, segs) && Headers(mem, live, u) && Tidy(segs, live, u)
      requires k < |segs| && first == segs[k].addr && second == LinkTo(segs, k + 1)
      modifies this`mem
      ensures Chain(mem, firstFree, MergeAt(segs, k)) && Headers(mem, live, u)
      ensures Tidy(MergeAt(segs, k), live, u)
    {
      hide Chain, Headers, Tidy, Store, MergeAt;
      MergedTidy(segs, k, live, u);
      Node(mem, firstFree, segs, k);
      TidyBounds(segs, live, u, k);
      SmallMod(first + F);
      SmallMod(segs[k].End());
      if second != 0 && second == Add32(Add32(first, F), mem[first]) {
        Node(mem, firstFree, segs, k + 1);
        ghost var size, link := segs[k].size + F + segs[k + 1].size, LinkTo(segs, k + 2);
        AbsorbedReads(mem, firstFree, segs, k, live, u, size);
        AbsorbedChain(mem, firstFree, segs, k, live, u);
        AbsorbedHeaders(mem, segs, k, live, u, size, link);
        SmallMod(segs[k].size + F);
        SmallMod(size);
        mem := Store(mem, first, Add32(Add32(mem[first], F), mem[second]));
        mem := Store(mem, first + 4, mem[second + 4]);
      }
    }

    /** Turn the header of a live block into the header of a free segment. */
    method WriteFreeHeader(block: nat, ghost p: nat)
      requires Valid() && p in st.live && Room(st, u, p) && block == p - u
      modifies this`mem
      ensures Chain(mem, firstFree, st.segs) && Headers(mem, st.live - {p}, u)
      ensures HeaderAt(mem, Seg(block, st.live[p] - u), 0)
    {
      hide Chain, Headers, HeaderAt, Store, Room;
      HeaderOf(mem, st, u, p);
      SmallMod(mem[block] - u);
      FreedChain(mem, firstFree, st, u, p, st.live[p] - u, 0);
      FreedHeaders(mem, st, u, p, st.live[p] - u, 0);
      mem := Store(mem, block, Sub32(mem[block], u));
      mem := Store(mem, block + 4, 0);
    }

    /** Link the freed block in front of segment `k`. */
    method LinkBlock(prev: nat, current: nat, block: nat, ghost s: State, ghost p: nat, ghost k: nat)
      requires Chain(mem, firstFree, s.segs) && Headers(mem, s.live - {p}, u) && Separate(s, u)
      requires p in s.live && Room(s, u, p) && Slot(s.segs, k, p - u) && block == p - u
      requires HeaderAt(mem, Seg(block, s.live[p] - u), 0)
      requires current == LinkTo(s.segs, k) && prev == if k == 0 then 0 else s.segs[k - 1].addr
      modifies this`mem, this`firstFree
      ensures var segs' := InsertAt(s.segs, k, Seg(block, s.live[p] - u));
              && Chain(mem, firstFree, segs')
              && Headers(mem, s.live - {p}, u)
              && Tidy(segs', s.live - {p}, u)
    {
      hide Chain, Headers, Tidy, Store, Room, Separate;
      LinkedBlock(mem, firstFree, s, u, p, k);
      InsertedTidy(s, u, p, k);
      PrevIsNull(mem, firstFree, s.segs, k);
      mem := Store(mem, block + 4, current);
      if prev == 0 {
        firstFree := block;
      } else {
        mem := Store(mem, prev + 4, block);
      }
    }

    method Deallocate(p: nat)
      requires Valid() && Separate(st, u)
      requires p == 0 || (p in st.live && Room(st, u, p))
      modifies this
      ensures Valid()
      ensures p == 0 ==> st == old(st)
      ensures p != 0 ==> st == FreeList.Deallocate(old(st), p, u)
    {
      hide Chain, Headers, Tidy, Room, Separate;
      if p == 0 {
        return;
      }
      HeaderOf(mem, st, u, p);
      SmallMod(p - u);
      var block := Sub32(p, u);
      WriteFreeHeader(block, p);
      var prev, current := 0, firstFree;
      ghost var k := 0;
      label Written:
      ChainStart(mem, firstFree, st.segs);
      while current != 0 && current < block
        invariant k <= |st.segs| && current == LinkTo(st.segs, k)
        invariant prev == if k == 0 then 0 else st.segs[k - 1].addr
        invariant forall i :: 0 <= i < k ==> st.segs[i].addr < block
        invariant unchanged@Written(this)
        decreases |st.segs| - k
      {
        Node(mem, firstFree, st.segs, k);
        prev := current;
        current := mem[current + 4];
        k := k + 1;
      }
      if k < |st.segs| {
        Node(mem, firstFree, st.segs, k);
      }
      assert Slot(st.segs, k, block);
      LinkAndFuse(prev, current, block, p, k);
    }

    /** Link the freed block in, then fuse it with its successor and its predecessor. */
    method LinkAndFuse(prev: nat, current: nat, block: nat, ghost p: nat, ghost k: nat)
      requires Chain(mem, firstFree, st.segs) && Headers(mem, st.live - {p}, u) && Separate(st, u) && 4 <= u < WORD
      requires p in st.live && Room(st, u, p) && Slot(st.segs, k, p - u) && block == p - u
      requires HeaderAt(mem, Seg(block, st.live[p] - u), 0)
      requires current == LinkTo(st.segs, k) && prev == if k == 0 then 0 else st.segs[k - 1].addr
      modifies this
      ensures Valid() && st == FreeList.Deallocate(old(st), p, u)
    {
      hide Chain, Headers, Tidy, Separate, HeaderAt, InsertAt, MergeAt, LinkTo;
      PrevIsNull(mem, firstFree, st.segs, k);
      ghost var freed, live' := Seg(block, st.live[p] - u), st.live - {p};
      InsertEnds(st.segs, k, freed);
      ghost var segs' := InsertAt(st.segs, k, freed);
      LinkBlock(prev, current, block, st, p, k);
      Absorb(block, current, segs', k, live');
      if prev != 0 {
        Absorb(prev, block, MergeAt(segs', k), k - 1, live');
      }
      st := State(Insert(st.segs, freed), live', st.lost);
    }

    /** A client writes one byte of its own block: no header of the heap is disturbed. */
    method ClientWrite(p: nat, a: nat, ghost lo: nat, ghost hi: nat)
      requires Valid() && Region(lo, hi) && Inv(st, lo, hi, u)
      requires p in st.live && p <= a < p - u + st.live[p]
      modifies this`mem
      ensures Valid()
    {
      ScribbledChain(mem, firstFree, st, p, a, u, lo, hi);
      ScribbledHeaders(mem, st, p, a, u, lo, hi);
      hide Chain, Headers, Inv, Scribble;
      mem := Scribble(mem, a);
    }
  }
}
