/** The machine-level allocator, driven by any legal run, does what the run says. */
module HeapDriver {
  import opened FreeList
  import opened HeapRuns
  import opened Allocator

  /** Any run of calls on the heap built at boot, with clients writing to their blocks between the
      calls, for which the heap stays sound (the two headers have the same size, or no block is
      given back): memory always represents the state that the run prescribes, and that state keeps
      the heap invariant. */
  method Serve(heap: Heap, ops: seq<Op>, ghost lo: nat, ghost hi: nat)
    requires heap.Valid() && Region(lo, hi) && heap.st == Initial(lo, hi)
    requires LegalRun(heap.st, ops, heap.u) && (heap.u == F || Frees(ops) == 0)
    modifies heap
    ensures heap.Valid() && heap.st == Run(old(heap.st), ops, heap.u)
    ensures Inv(heap.st, lo, hi, heap.u)
  {
    hide Chain, Headers, Inv, Separate, Room, Insert, Carve, FirstFit;
    InitialInv(lo, hi, heap.u);
    var i := 0;
    assert ops[0..] == ops;
    while i < |ops|
      invariant i <= |ops| && heap.Valid() && Inv(heap.st, lo, hi, heap.u)
      invariant heap.u == F || Frees(ops[i..]) == 0
      invariant LegalRun(heap.st, ops[i..], heap.u)
      invariant Run(heap.st, ops[i..], heap.u) == Run(old(heap.st), ops, heap.u)
    {
      ghost var rest := ops[i..];
      assert rest[0] == ops[i] && rest[1..] == ops[i + 1..];
      StepKeepsInv(heap.st, ops[i], lo, hi, heap.u);
      InvGivesSeparate(heap.st, lo, hi, heap.u);
      match ops[i] {
        case Alloc(n, alignment) => var _ := heap.Allocate(n, alignment);
        case Free(p) => heap.Deallocate(p);
        case Write(p, a) => heap.ClientWrite(p, a, lo, hi);
      }
      i := i + 1;
    }
  }
}
