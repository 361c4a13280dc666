/** The allocator of src/memory.c as a function of its state: an address-sorted free list,
    the blocks handed out, and the headers given up by exact fits. `u` is the size of the
    header in front of a block, `F` the size of the header of a free segment. */
module FreeList {
  import opened Words

  /** sizeof(FreeSegment): a size word and a link word. */
  const F: nat := 8

  /** A free segment: an `F`-byte header at `addr`, then `size` bytes. */
  datatype Seg = Seg(addr: nat, size: nat) {
    function End(): nat {
      addr + F + size
    }
  }

  /** `live` maps each pointer handed out to the length of its block, header included.
      `lost` holds the addresses of free headers that no list reaches any more. */
  datatype State = State(segs: seq<Seg>, live: map<nat, nat>, lost: set<nat>)

  // ---------------------------------------------------------------- allocation

  /** Where the header of an `n`-byte block carved from the tail of `s` would go. */
  function HeaderIn(s: Seg, n: nat, alignment: nat, u: nat): int
    requires 0 < alignment
  {
    AlignDown(s.End() - n, alignment) - u
  }

  predicate Fits(s: Seg, n: nat, alignment: nat, u: nat)
    requires 0 < alignment
  {
    s.addr + F <= HeaderIn(s, n, alignment, u)
  }

  /** Some placement of the block is possible behind the header of `s`. */
  ghost predicate CanHold(s: Seg, n: nat, alignment: nat, u: nat)
    requires 0 < alignment
  {
    exists p: int :: s.addr + F + u <= p && p + n <= s.End() && p % alignment == 0
  }

  /** The index of the first segment that fits, or the length of the list. */
  function FirstFit(segs: seq<Seg>, n: nat, alignment: nat, u: nat): (i: nat)
    requires 0 < alignment
    ensures i <= |segs|
    ensures i < |segs| ==> Fits(segs[i], n, alignment, u)
    ensures forall k :: 0 <= k < i ==> !Fits(segs[k], n, alignment, u)
  {
    if segs == [] then 0
    else if Fits(segs[0], n, alignment, u) then 0
    else
      var i := FirstFit(segs[1..], n, alignment, u);
      assert forall k :: 1 <= k <= i ==> segs[k] == segs[1..][k - 1];
      i + 1
  }

  /** Carving the tail of segment `i`, from a block header at `h`. */
  function Carve(st: State, i: nat, h: nat, u: nat): State
    requires i < |st.segs| && st.segs[i].addr + F <= h <= st.segs[i].End()
  {
    var s := st.segs[i];
    var live' := st.live[h + u := s.End() - h];
    if h == s.addr + F then
      State(st.segs[..i] + st.segs[i + 1..], live', st.lost + {s.addr})
    else
      State(st.segs[i := Seg(s.addr, h - (s.addr + F))], live', st.lost)
  }

  /** `allocate`: the new state and the pointer returned, 0 for NULL. */
  function Allocate(st: State, n: nat, alignment: nat, u: nat): (State, nat)
    requires 0 < alignment
  {
    var i := FirstFit(st.segs, n, alignment, u);
    if n == 0 || i == |st.segs| then (st, 0)
    else
      AlignDownGreatest(st.segs[i].End() - n, alignment);
      var h: nat := HeaderIn(st.segs[i], n, alignment, u);
      (Carve(st, i, h, u), h + u)
  }

  // ---------------------------------------------------------------- deallocation

  /** The number of leading segments that lie below address `a`. */
  function Below(segs: seq<Seg>, a: nat): (k: nat)
    ensures k <= |segs|
    ensures forall i :: 0 <= i < k ==> segs[i].addr < a
    ensures k < |segs| ==> a <= segs[k].addr
  {
    if segs == [] || a <= segs[0].addr then 0
    else
      var k := Below(segs[1..], a);
      assert forall i :: 1 <= i <= k ==> segs[i] == segs[1..][i - 1];
      k + 1
  }

  function InsertAt(segs: seq<Seg>, k: nat, s: Seg): seq<Seg>
    requires k <= |segs|
  {
    segs[..k] + [s] + segs[k..]
  }

  /** Fuse segment `k` with its successor when the two touch. */
  function MergeAt(segs: seq<Seg>, k: nat): seq<Seg>
    requires k < |segs|
  {
    if k + 1 < |segs| && segs[k].End() == segs[k + 1].addr then
      segs[..k] + [Seg(segs[k].addr, segs[k].size + F + segs[k + 1].size)] + segs[k + 2..]
    else
      segs
  }

  /** Fuse segment `k` with its successor, then with its predecessor. */
  function Fuse(segs: seq<Seg>, k: nat): seq<Seg>
    requires k < |segs|
  {
    if k == 0 then MergeAt(segs, k) else MergeAt(MergeAt(segs, k), k - 1)
  }

  /** Insert a segment in address order and fuse it with the neighbours it touches. */
  function Insert(segs: seq<Seg>, s: Seg): seq<Seg> {
    var k := Below(segs, s.addr);
    Fuse(InsertAt(segs, k, s), k)
  }

  /** `deallocate` of a live pointer, or of NULL. */
  function Deallocate(st: State, p: nat, u: nat): State
    requires p == 0 || (p in st.live && u <= p && u <= st.live[p])
  {
    if p == 0 then st
    else State(Insert(st.segs, Seg(p - u, st.live[p] - u)), st.live - {p}, st.lost)
  }

  // ---------------------------------------------------------------- the heap invariant

  /** Half-open byte ranges that do not meet. */
  predicate Apart(from: int, to: int, from': int, to': int) {
    to <= from' || to' <= from
  }

  predicate Sorted(segs: seq<Seg>) {
    forall i, j :: 0 <= i < j < |segs| ==> segs[i].End() <= segs[j].addr
  }

  /** Segment `i` does not touch its successor. */
  predicate Gap(segs: seq<Seg>, i: nat) {
    i + 1 < |segs| ==> segs[i].End() < segs[i + 1].addr
  }

  predicate Coalesced(segs: seq<Seg>) {
    forall i: nat :: i < |segs| ==> Gap(segs, i)
  }

  ghost predicate FreeByte(segs: seq<Seg>, x: int) {
    exists i :: 0 <= i < |segs| && segs[i].addr <= x < segs[i].End()
  }

  ghost predicate UsedByte(live: map<nat, nat>, u: nat, x: int) {
    exists p :: p in live && p - u <= x < p - u + live[p]
  }

  ghost predicate LostByte(lost: set<nat>, x: int) {
    exists a :: a in lost && a <= x < a + F
  }

  predicate Region(lo: nat, hi: nat) {
    0 < lo && lo + F <= hi < WORD
  }

  /** Live blocks lie in the region, apart from each other. */
  ghost predicate LiveApart(live: map<nat, nat>, lo: nat, hi: nat, u: nat) {
    && (forall p :: p in live ==> lo + u <= p && u < live[p] && p - u + live[p] <= hi)
    && (forall p, q :: p in live && q in live && p != q ==>
          Apart(p - u, p - u + live[p], q - u, q - u + live[q]))
  }

  /** Lost headers lie in the region, apart from each other. */
  ghost predicate LostApart(lost: set<nat>, lo: nat, hi: nat) {
    && (forall a :: a in lost ==> lo <= a && a + F <= hi)
    && (forall a, b :: a in lost && b in lost && a != b ==> Apart(a, a + F, b, b + F))
  }

  /** A byte range apart from every live block. */
  ghost predicate ClearOfLive(live: map<nat, nat>, u: nat, from: int, to: int) {
    forall p :: p in live ==> Apart(p - u, p - u + live[p], from, to)
  }

  /** A byte range apart from every lost header. */
  ghost predicate ClearOfLost(lost: set<nat>, from: int, to: int) {
    forall a :: a in lost ==> Apart(a, a + F, from, to)
  }

  ghost predicate Unowned(live: map<nat, nat>, lost: set<nat>, u: nat, from: int, to: int) {
    ClearOfLive(live, u, from, to) && ClearOfLost(lost, from, to)
  }

  /** Every live block and lost header lies in the region, apart from all others. */
  ghost predicate BlocksApart(live: map<nat, nat>, lost: set<nat>, lo: nat, hi: nat, u: nat) {
    && LiveApart(live, lo, hi, u) && LostApart(lost, lo, hi)
    && forall a :: a in lost ==> ClearOfLive(live, u, a, a + F)
  }

  ghost predicate SegsApart(st: State, lo: nat, hi: nat, u: nat) {
    forall i :: 0 <= i < |st.segs| ==>
      && lo <= st.segs[i].addr && st.segs[i].End() <= hi
      && Unowned(st.live, st.lost, u, st.segs[i].addr, st.segs[i].End())
  }

  ghost predicate Covered(st: State, u: nat, x: int) {
    FreeByte(st.segs, x) || UsedByte(st.live, u, x) || LostByte(st.lost, x)
  }

  /** Free segments, live blocks and lost headers partition the region; free segments may touch. */
  ghost predicate Partition(st: State, lo: nat, hi: nat, u: nat) {
    && Sorted(st.segs)
    && BlocksApart(st.live, st.lost, lo, hi, u)
    && SegsApart(st, lo, hi, u)
    && forall x :: lo <= x < hi ==> Covered(st, u, x)
  }

  /** The heap invariant: a partition of the region in which no two free segments touch. */
  ghost predicate Inv(st: State, lo: nat, hi: nat, u: nat) {
    Partition(st, lo, hi, u) && Coalesced(st.segs)
  }

  /** The single segment built at boot. */
  function Initial(lo: nat, hi: nat): State
    requires Region(lo, hi)
  {
    State([Seg(lo, hi - lo - F)], map[], {})
  }

  // ---------------------------------------------------------------- first fit is complete

  /** The tail test accepts a segment exactly when the segment can hold the block at all. */
  lemma FitsExactlyWhenHolds(s: Seg, n: nat, alignment: nat, u: nat)
    requires 0 < alignment
    ensures Fits(s, n, alignment, u) <==> CanHold(s, n, alignment, u)
  {
    AlignDownGreatest(s.End() - n, alignment);
    if Fits(s, n, alignment, u) {
      var p := HeaderIn(s, n, alignment, u) + u;
      assert p % alignment == 0;
    }
  }

  /** The search stops at the lowest segment that can hold the block, or at the end when none can. */
  lemma SearchIsComplete(segs: seq<Seg>, n: nat, alignment: nat, u: nat)
    requires 0 < alignment
    ensures var i := FirstFit(segs, n, alignment, u);
            && (i < |segs| ==> CanHold(segs[i], n, alignment, u))
            && (forall k :: 0 <= k < i ==> !CanHold(segs[k], n, alignment, u))
  {
    hide Fits, CanHold;
    forall k | 0 <= k < |segs|
      ensures Fits(segs[k], n, alignment, u) <==> CanHold(segs[k], n, alignment, u)
    {
      FitsExactlyWhenHolds(segs[k], n, alignment, u);
    }
  }

  /** `allocate` returns NULL, and changes nothing, exactly when the size is 0 or no free segment
      can hold the block. */
  lemma AllocateFailsExactly(st: State, n: nat, alignment: nat, u: nat)
    requires 0 < alignment
    ensures var (st', p) := Allocate(st, n, alignment, u);
            && (p == 0 <==> n == 0 || forall s :: s in st.segs ==> !CanHold(s, n, alignment, u))
            && (p == 0 ==> st' == st)
  {
    hide CanHold, FirstFit, AlignDown;
    var i := FirstFit(st.segs, n, alignment, u);
    SearchIsComplete(st.segs, n, alignment, u);
    if i < |st.segs| {
      assert st.segs[i] in st.segs;
    }
  }

  /** Otherwise the block is the tail of the lowest segment `i` that can hold it: aligned and large
      enough. */
  lemma AllocatePlacesBlock(st: State, n: nat, alignment: nat, u: nat)
    requires 0 < alignment && Allocate(st, n, alignment, u).1 != 0
    ensures var (st', p) := Allocate(st, n, alignment, u);
            var i := FirstFit(st.segs, n, alignment, u);
            && i < |st.segs| && CanHold(st.segs[i], n, alignment, u)
            && (forall k :: 0 <= k < i ==> !CanHold(st.segs[k], n, alignment, u))
            && p % alignment == 0 && u <= p && st.segs[i].addr + F + u <= p
            && st'.live == st.live[p := st.segs[i].End() - (p - u)]
            && p + n <= p - u + st'.live[p] == st.segs[i].End() < p + n + alignment
            && (forall q: int :: q % alignment == 0 && q + n <= st.segs[i].End() ==> q <= p)
  {
    hide CanHold, FirstFit, AlignDown;
    SearchIsComplete(st.segs, n, alignment, u);
    AlignDownGreatest(st.segs[FirstFit(st.segs, n, alignment, u)].End() - n, alignment);
  }

  /** The chosen segment shrinks to end where the block begins, or leaves the list when nothing of
      it remains; every other segment is unchanged. */
  lemma AllocateFrame(st: State, n: nat, alignment: nat, u: nat)
    requires 0 < alignment && Allocate(st, n, alignment, u).1 != 0
    ensures var (st', p) := Allocate(st, n, alignment, u);
            var i := FirstFit(st.segs, n, alignment, u);
            && i < |st.segs| && i <= |st'.segs| && st'.segs[..i] == st.segs[..i]
            && if p - u == st.segs[i].addr + F
               then st'.segs[i..] == st.segs[i + 1..] && st'.lost == st.lost + {st.segs[i].addr}
               else |st'.segs| == |st.segs| && st'.segs[i + 1..] == st.segs[i + 1..] &&
                    st'.segs[i].addr == st.segs[i].addr && st'.segs[i].End() == p - u &&
                    st'.lost == st.lost
  {
    hide FirstFit, AlignDown;
  }

  // ---------------------------------------------------------------- allocation keeps the invariant

  lemma CarveCovers(st: State, i: nat, h: nat, u: nat, x: int)
    requires i < |st.segs| && st.segs[i].addr + F <= h <= st.segs[i].End()
    requires h + u !in st.live
    requires Covered(st, u, x)
    ensures Covered(Carve(st, i, h, u), u, x)
  {
    var s := st.segs[i];
    var st' := Carve(st, i, h, u);
    if UsedByte(st.live, u, x) {
      var p :| p in st.live && p - u <= x < p - u + st.live[p];
      assert p in st'.live && st'.live[p] == st.live[p];
    } else if LostByte(st.lost, x) {
      var a :| a in st.lost && a <= x < a + F;
      assert a in st'.lost;
    } else {
      var j :| 0 <= j < |st.segs| && st.segs[j].addr <= x < st.segs[j].End();
      if j == i && h <= x {
        assert h + u in st'.live;
      } else if j == i && h == s.addr + F {
        assert s.addr in st'.lost;
      } else if j == i || h != s.addr + F || j < i {
        assert st'.segs[j].addr <= x < st'.segs[j].End();
      } else {
        assert st'.segs[j - 1] == st.segs[j];
      }
    }
  }

  /** Where segment `j` of the list after carving segment `i` comes from. */
  function Origin(st: State, i: nat, h: nat, j: nat): nat
    requires i < |st.segs|
  {
    if h == st.segs[i].addr + F && i <= j then j + 1 else j
  }

  lemma CarveSegs(st: State, i: nat, h: nat, u: nat)
    requires i < |st.segs| && st.segs[i].addr + F <= h <= st.segs[i].End()
    requires Sorted(st.segs)
    ensures var st' := Carve(st, i, h, u);
            && Sorted(st'.segs)
            && (forall j: nat :: j < |st'.segs| ==>
                  var k := Origin(st, i, h, j);
                  && k < |st.segs| && st'.segs[j].addr == st.segs[k].addr
                  && st'.segs[j].End() == if k == i then h else st.segs[k].End())
  {
  }

  lemma CarveCoalesced(st: State, i: nat, h: nat, u: nat)
    requires i < |st.segs| && st.segs[i].addr + F <= h <= st.segs[i].End()
    requires Sorted(st.segs) && Coalesced(st.segs)
    ensures Coalesced(Carve(st, i, h, u).segs)
  {
    hide Carve, Sorted;
    var st' := Carve(st, i, h, u);
    CarveSegs(st, i, h, u);
    forall j: nat | j < |st'.segs|
      ensures Gap(st'.segs, j)
    {
      if j + 1 < |st'.segs| {
        var k, k' := Origin(st, i, h, j), Origin(st, i, h, j + 1);
        assert Gap(st.segs, k) && Gap(st.segs, k + 1);
        assert k' == k + 1 || k' == k + 2;
        assert st.segs[k].End() < st.segs[k + 1].addr < st.segs[k + 1].End();
      }
    }
  }

  lemma CarveFresh(st: State, i: nat, h: nat, u: nat, lo: nat, hi: nat)
    requires i < |st.segs| && st.segs[i].addr + F <= h && h + u < st.segs[i].End()
    requires BlocksApart(st.live, st.lost, lo, hi, u) && SegsApart(st, lo, hi, u)
    ensures h + u !in st.live && st.segs[i].addr !in st.lost
    ensures lo <= st.segs[i].addr && st.segs[i].End() <= hi
    ensures Unowned(st.live, st.lost, u, h, st.segs[i].End())
    ensures Unowned(st.live, st.lost, u, st.segs[i].addr, st.segs[i].addr + F)
  {
    var s := st.segs[i];
    LiveFresh(st.live, u, lo, hi, s.addr, s.End(), h);
    LostFresh(st.lost, s.addr, s.End(), h);
  }

  lemma LiveFresh(live: map<nat, nat>, u: nat, lo: nat, hi: nat, from: nat, to: nat, h: nat)
    requires LiveApart(live, lo, hi, u) && ClearOfLive(live, u, from, to) && from + F <= h && h + u < to
    ensures h + u !in live && ClearOfLive(live, u, h, to) && ClearOfLive(live, u, from, from + F)
  {
    forall p | p in live
      ensures p != h + u
    {
      assert Apart(p - u, p - u + live[p], from, to);
    }
  }

  lemma LostFresh(lost: set<nat>, from: nat, to: nat, h: nat)
    requires ClearOfLost(lost, from, to) && from + F <= h <= to
    ensures from !in lost && ClearOfLost(lost, h, to) && ClearOfLost(lost, from, from + F)
  {
    forall a | a in lost
      ensures a != from
    {
      assert Apart(a, a + F, from, to);
    }
  }

  lemma CarveBlocks(st: State, i: nat, h: nat, u: nat, lo: nat, hi: nat)
    requires i < |st.segs| && st.segs[i].addr + F <= h && h + u < st.segs[i].End()
    requires BlocksApart(st.live, st.lost, lo, hi, u) && SegsApart(st, lo, hi, u)
    ensures var st' := Carve(st, i, h, u); BlocksApart(st'.live, st'.lost, lo, hi, u)
  {
    hide BlocksApart, SegsApart, Unowned;
    var s := st.segs[i];
    var live' := st.live[h + u := s.End() - h];
    CarveFresh(st, i, h, u, lo, hi);
    BlockAdded(st.live, st.lost, lo, hi, u, h + u, s.End() - h);
    UnownedStill(st.live, st.lost, u, h + u, s.End() - h, s.addr, s.addr + F);
    HeaderLost(live', st.lost, lo, hi, u, s.addr);
  }

  lemma UnownedStill(live: map<nat, nat>, lost: set<nat>, u: nat, p: nat, len: nat, from: int, to: int)
    requires Unowned(live, lost, u, from, to) && Apart(p - u, p - u + len, from, to)
    ensures Unowned(live[p := len], lost, u, from, to)
  {
  }

  lemma BlockAdded(live: map<nat, nat>, lost: set<nat>, lo: nat, hi: nat, u: nat, p: nat, len: nat)
    requires BlocksApart(live, lost, lo, hi, u)
    requires p !in live && lo + u <= p && u < len && p - u + len <= hi
    requires Unowned(live, lost, u, p - u, p - u + len)
    ensures BlocksApart(live[p := len], lost, lo, hi, u)
  {
    hide LiveApart, LostApart;
    LiveAdded(live, lo, hi, u, p, len);
    forall a | a in lost
      ensures ClearOfLive(live[p := len], u, a, a + F)
    {
      assert ClearOfLive(live, u, a, a + F) && Apart(a, a + F, p - u, p - u + len);
    }
  }

  lemma LiveAdded(live: map<nat, nat>, lo: nat, hi: nat, u: nat, p: nat, len: nat)
    requires LiveApart(live, lo, hi, u) && ClearOfLive(live, u, p - u, p - u + len)
    requires p !in live && lo + u <= p && u < len && p - u + len <= hi
    ensures LiveApart(live[p := len], lo, hi, u)
  {
  }

  lemma HeaderLost(live: map<nat, nat>, lost: set<nat>, lo: nat, hi: nat, u: nat, a: nat)
    requires BlocksApart(live, lost, lo, hi, u)
    requires a !in lost && lo <= a && a + F <= hi
    requires Unowned(live, lost, u, a, a + F)
    ensures BlocksApart(live, lost + {a}, lo, hi, u)
  {
    hide LiveApart, ClearOfLive;
  }

  lemma CarveUnowned(st: State, i: nat, h: nat, u: nat, from: int, to: int)
    requires i < |st.segs| && st.segs[i].addr + F <= h <= st.segs[i].End()
    requires Unowned(st.live, st.lost, u, from, to) && Apart(h, st.segs[i].End(), from, to)
    requires h == st.segs[i].addr + F ==> Apart(st.segs[i].addr, st.segs[i].End(), from, to)
    ensures var st' := Carve(st, i, h, u); Unowned(st'.live, st'.lost, u, from, to)
  {
  }

  lemma CarveApart(st: State, i: nat, h: nat, u: nat, lo: nat, hi: nat)
    requires i < |st.segs| && st.segs[i].addr + F <= h && h + u < st.segs[i].End()
    requires Sorted(st.segs) && SegsApart(st, lo, hi, u)
    ensures SegsApart(Carve(st, i, h, u), lo, hi, u)
  {
    hide Carve, Unowned;
    var s := st.segs[i];
    var st' := Carve(st, i, h, u);
    CarveSegs(st, i, h, u);
    forall j: nat | j < |st'.segs|
      ensures lo <= st'.segs[j].addr && st'.segs[j].End() <= hi
      ensures Unowned(st'.live, st'.lost, u, st'.segs[j].addr, st'.segs[j].End())
    {
      var k := Origin(st, i, h, j);
      UnownedWithin(st.live, st.lost, u, st.segs[k].addr, st.segs[k].End(), st'.segs[j].End());
      CarveUnowned(st, i, h, u, st'.segs[j].addr, st'.segs[j].End());
    }
  }

  lemma UnownedWithin(live: map<nat, nat>, lost: set<nat>, u: nat, from: int, to: int, to': int)
    requires Unowned(live, lost, u, from, to) && to' <= to
    ensures Unowned(live, lost, u, from, to')
  {
  }

  lemma CarveKeepsInv(st: State, i: nat, h: nat, u: nat, lo: nat, hi: nat)
    requires i < |st.segs| && st.segs[i].addr + F <= h && h + u < st.segs[i].End()
    requires Inv(st, lo, hi, u)
    ensures Inv(Carve(st, i, h, u), lo, hi, u)
  {
    var st' := Carve(st, i, h, u);
    CarveSegs(st, i, h, u);
    CarveCoalesced(st, i, h, u);
    CarveBlocks(st, i, h, u, lo, hi);
    CarveApart(st, i, h, u, lo, hi);
    forall x | lo <= x < hi
      ensures Covered(st', u, x)
    {
      CarveCovers(st, i, h, u, x);
    }
  }

  lemma AllocateKeepsInv(st: State, n: nat, alignment: nat, u: nat, lo: nat, hi: nat)
    requires 0 < alignment && Inv(st, lo, hi, u)
    ensures Inv(Allocate(st, n, alignment, u).0, lo, hi, u)
  {
    var i := FirstFit(st.segs, n, alignment, u);
    if n != 0 && i < |st.segs| {
      AlignDownGreatest(st.segs[i].End() - n, alignment);
      CarveKeepsInv(st, i, HeaderIn(st.segs[i], n, alignment, u), u, lo, hi);
    }
  }

  // ---------------------------------------------------------------- deallocation keeps the invariant

  lemma InsertedBytes(segs: seq<Seg>, k: nat, s: Seg, x: int)
    requires k <= |segs|
    ensures FreeByte(InsertAt(segs, k, s), x) <==> FreeByte(segs, x) || s.addr <= x < s.End()
  {
    var segs' := InsertAt(segs, k, s);
    if s.addr <= x < s.End() {
      assert segs'[k] == s;
    }
    if FreeByte(segs, x) {
      var i :| 0 <= i < |segs| && segs[i].addr <= x < segs[i].End();
      assert segs'[if i < k then i else i + 1] == segs[i];
    }
  }

  lemma MergedBytes(segs: seq<Seg>, k: nat, x: int)
    requires k < |segs|
    ensures FreeByte(MergeAt(segs, k), x) <==> FreeByte(segs, x)
  {
    var segs' := MergeAt(segs, k);
    if segs' != segs {
      assert segs'[k].addr == segs[k].addr && segs'[k].End() == segs[k + 1].End();
      if FreeByte(segs', x) {
        var i :| 0 <= i < |segs'| && segs'[i].addr <= x < segs'[i].End();
        assert i == k ==> segs[k].addr <= x < segs[k].End() || segs[k + 1].addr <= x < segs[k + 1].End();
        assert i != k ==> segs[if i < k then i else i + 1] == segs'[i];
      }
      if FreeByte(segs, x) {
        var i :| 0 <= i < |segs| && segs[i].addr <= x < segs[i].End();
        assert i < k ==> segs'[i] == segs[i];
        assert k + 1 < i ==> segs'[i - 1] == segs[i];
      }
    }
  }

  predicate Slot(segs: seq<Seg>, k: nat, a: nat) {
    && k <= |segs|
    && (forall i :: 0 <= i < k ==> segs[i].addr < a)
    && (k < |segs| ==> a <= segs[k].addr)
  }

  lemma InsertedSorted(segs: seq<Seg>, k: nat, s: Seg)
    requires Sorted(segs) && Slot(segs, k, s.addr)
    requires forall i :: 0 <= i < |segs| ==> Apart(s.addr, s.End(), segs[i].addr, segs[i].End())
    ensures Sorted(InsertAt(segs, k, s))
  {
  }

  lemma InsertedGaps(segs: seq<Seg>, k: nat, s: Seg)
    requires k <= |segs| && Coalesced(segs)
    ensures forall i: nat :: i != k && i + 1 != k ==> Gap(InsertAt(segs, k, s), i)
  {
    var segs' := InsertAt(segs, k, s);
    forall i: nat | i != k && i + 1 != k
      ensures Gap(segs', i)
    {
      if i + 1 < |segs'| {
        assert Gap(segs, if i < k then i else i - 1);
      }
    }
  }

  lemma RemovedCovers(st: State, p: nat, k: nat, x: int)
    requires p in st.live && F <= p && F <= st.live[p] && k <= |st.segs|
    requires Covered(st, F, x)
    ensures Covered(State(InsertAt(st.segs, k, Seg(p - F, st.live[p] - F)), st.live - {p}, st.lost), F, x)
  {
    InsertedBytes(st.segs, k, Seg(p - F, st.live[p] - F), x);
    if UsedByte(st.live, F, x) {
      var q :| q in st.live && q - F <= x < q - F + st.live[q];
      assert q != p ==> q in st.live - {p} && (st.live - {p})[q] == st.live[q];
    }
  }

  lemma FreedApart(st: State, p: nat, lo: nat, hi: nat)
    requires p in st.live && BlocksApart(st.live, st.lost, lo, hi, F) && SegsApart(st, lo, hi, F)
    ensures forall i :: 0 <= i < |st.segs| ==>
              Apart(p - F, p - F + st.live[p], st.segs[i].addr, st.segs[i].End())
  {
  }

  lemma BlockRemoved(live: map<nat, nat>, lost: set<nat>, lo: nat, hi: nat, p: nat)
    requires BlocksApart(live, lost, lo, hi, F) && p in live
    ensures BlocksApart(live - {p}, lost, lo, hi, F)
    ensures Unowned(live - {p}, lost, F, p - F, p - F + live[p])
  {
    hide LostApart;
    LiveRemoved(live, lo, hi, p);
    forall a | a in lost
      ensures ClearOfLive(live - {p}, F, a, a + F) && Apart(a, a + F, p - F, p - F + live[p])
    {
      assert ClearOfLive(live, F, a, a + F);
      ClearWithout(live, p, a, a + F);
    }
  }

  lemma LiveRemoved(live: map<nat, nat>, lo: nat, hi: nat, p: nat)
    requires LiveApart(live, lo, hi, F) && p in live
    ensures LiveApart(live - {p}, lo, hi, F)
    ensures ClearOfLive(live - {p}, F, p - F, p - F + live[p])
  {
    hide LiveApart, ClearOfLive;
    LiveWithout(live, lo, hi, p);
    ApartFromRest(live, lo, hi, p);
  }

  lemma LiveWithout(live: map<nat, nat>, lo: nat, hi: nat, p: nat)
    requires LiveApart(live, lo, hi, F)
    ensures LiveApart(live - {p}, lo, hi, F)
  {
  }

  lemma ApartFromRest(live: map<nat, nat>, lo: nat, hi: nat, p: nat)
    requires LiveApart(live, lo, hi, F) && p in live
    ensures ClearOfLive(live - {p}, F, p - F, p - F + live[p])
  {
  }

  lemma ClearWithout(live: map<nat, nat>, p: nat, from: int, to: int)
    requires ClearOfLive(live, F, from, to)
    ensures ClearOfLive(live - {p}, F, from, to)
  {
  }

  lemma InsertedApart(st: State, p: nat, k: nat, lo: nat, hi: nat)
    requires p in st.live && BlocksApart(st.live, st.lost, lo, hi, F) && SegsApart(st, lo, hi, F) && k <= |st.segs|
    ensures var st' := State(InsertAt(st.segs, k, Seg(p - F, st.live[p] - F)), st.live - {p}, st.lost);
            SegsApart(st', lo, hi, F)
  {
    hide LostApart, ClearOfLive, ClearOfLost;
    var s := Seg(p - F, st.live[p] - F);
    var st' := State(InsertAt(st.segs, k, s), st.live - {p}, st.lost);
    BlockRemoved(st.live, st.lost, lo, hi, p);
    forall i | 0 <= i < |st'.segs|
      ensures lo <= st'.segs[i].addr && st'.segs[i].End() <= hi
      ensures Unowned(st'.live, st'.lost, F, st'.segs[i].addr, st'.segs[i].End())
    {
      if i != k {
        var j := if i < k then i else i - 1;
        assert st'.segs[i] == st.segs[j];
        ClearWithout(st.live, p, st.segs[j].addr, st.segs[j].End());
      }
    }
  }

  lemma InsertedPartition(st: State, p: nat, k: nat, lo: nat, hi: nat)
    requires p in st.live && Partition(st, lo, hi, F) && Slot(st.segs, k, p - F)
    ensures Partition(State(InsertAt(st.segs, k, Seg(p - F, st.live[p] - F)), st.live - {p}, st.lost), lo, hi, F)
  {
    var s := Seg(p - F, st.live[p] - F);
    var st' := State(InsertAt(st.segs, k, s), st.live - {p}, st.lost);
    FreedApart(st, p, lo, hi);
    InsertedSorted(st.segs, k, s);
    InsertedApart(st, p, k, lo, hi);
    BlockRemoved(st.live, st.lost, lo, hi, p);
    forall x | lo <= x < hi
      ensures Covered(st', F, x)
    {
      RemovedCovers(st, p, k, x);
    }
  }

  lemma MergedPartition(st: State, k: nat, lo: nat, hi: nat)
    requires k < |st.segs| && Partition(st, lo, hi, F)
    ensures Partition(State(MergeAt(st.segs, k), st.live, st.lost), lo, hi, F)
  {
    MergedSorted(st.segs, k);
    MergedApart(st, k, lo, hi);
    MergedCovers(st, k, lo, hi);
  }

  lemma MergedCovers(st: State, k: nat, lo: nat, hi: nat)
    requires k < |st.segs| && forall x :: lo <= x < hi ==> Covered(st, F, x)
    ensures forall x :: lo <= x < hi ==> Covered(State(MergeAt(st.segs, k), st.live, st.lost), F, x)
  {
    hide MergeAt, FreeByte;
    forall x | lo <= x < hi
      ensures Covered(State(MergeAt(st.segs, k), st.live, st.lost), F, x)
    {
      MergedBytes(st.segs, k, x);
      assert Covered(st, F, x);
    }
  }

  lemma MergedApart(st: State, k: nat, lo: nat, hi: nat)
    requires k < |st.segs| && SegsApart(st, lo, hi, F) && forall p :: p in st.live ==> 0 < st.live[p]
    ensures SegsApart(State(MergeAt(st.segs, k), st.live, st.lost), lo, hi, F)
  {
  }

  lemma MergedSorted(segs: seq<Seg>, k: nat)
    requires k < |segs| && Sorted(segs)
    ensures Sorted(MergeAt(segs, k))
  {
  }

  /** Fusing at `k` leaves a gap there, and keeps the gaps on either side. */
  lemma MergedGaps(segs: seq<Seg>, k: nat)
    requires k < |segs| && Sorted(segs)
    requires forall i: nat :: i > k ==> Gap(segs, i)
    ensures forall i: nat :: i >= k ==> Gap(MergeAt(segs, k), i)
    ensures forall i: nat :: i < k && Gap(segs, i) ==> Gap(MergeAt(segs, k), i)
    ensures |MergeAt(segs, k)| > k && MergeAt(segs, k)[k].addr == segs[k].addr
  {
    var segs' := MergeAt(segs, k);
    if segs' != segs {
      forall i: nat | i >= k
        ensures Gap(segs', i)
      {
        assert Gap(segs, i + 1);
      }
    }
  }

  lemma LiveBounds(st: State, p: nat, lo: nat, hi: nat)
    requires p in st.live && Partition(st, lo, hi, F)
    ensures F <= p && F < st.live[p]
  {
  }

  lemma FusedPartition(st: State, k: nat, lo: nat, hi: nat)
    requires k < |st.segs| && Partition(st, lo, hi, F)
    ensures Partition(State(Fuse(st.segs, k), st.live, st.lost), lo, hi, F)
  {
    hide Partition;
    MergedPartition(st, k, lo, hi);
    if k > 0 {
      MergedPartition(State(MergeAt(st.segs, k), st.live, st.lost), k - 1, lo, hi);
    }
  }

  /** Insertion and the two fusions keep the partition. */
  lemma DeallocateKeepsPartition(st: State, p: nat, lo: nat, hi: nat)
    requires p in st.live && Partition(st, lo, hi, F)
    ensures Partition(Deallocate(st, p, F), lo, hi, F)
  {
    hide Partition, Fuse;
    LiveBounds(st, p, lo, hi);
    var s := Seg(p - F, st.live[p] - F);
    var k := Below(st.segs, s.addr);
    InsertedPartition(st, p, k, lo, hi);
    FusedPartition(State(InsertAt(st.segs, k, s), st.live - {p}, st.lost), k, lo, hi);
  }

  /** The two fusions close both gaps that the insertion may have opened. */
  lemma InsertCoalesces(segs: seq<Seg>, s: Seg)
    requires Sorted(segs) && Coalesced(segs)
    requires forall i :: 0 <= i < |segs| ==> Apart(s.addr, s.End(), segs[i].addr, segs[i].End())
    ensures Coalesced(Insert(segs, s))
  {
    var k := Below(segs, s.addr);
    var segs' := InsertAt(segs, k, s);
    InsertedSorted(segs, k, s);
    InsertedGaps(segs, k, s);
    FusedCoalesced(segs', k);
  }

  lemma FusedCoalesced(segs: seq<Seg>, k: nat)
    requires k < |segs| && Sorted(segs)
    requires forall i: nat :: i != k && i + 1 != k ==> Gap(segs, i)
    ensures Coalesced(Fuse(segs, k))
  {
    hide Gap, Sorted;
    MergedGaps(segs, k);
    if k > 0 {
      MergedSorted(segs, k);
      MergedGaps(MergeAt(segs, k), k - 1);
    }
  }

  lemma DeallocateKeepsInv(st: State, p: nat, lo: nat, hi: nat)
    requires p in st.live && Inv(st, lo, hi, F)
    ensures Inv(Deallocate(st, p, F), lo, hi, F)
  {
    DeallocateKeepsPartition(st, p, lo, hi);
    FreedApart(st, p, lo, hi);
    InsertCoalesces(st.segs, Seg(p - F, st.live[p] - F));
  }
}
