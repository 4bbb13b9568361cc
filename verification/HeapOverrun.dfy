/** What krealloc does to the memory of the heap when its copy does not fit. */
module HeapOverrun {
  import opened BitOps
  import opened LittleEndian
  import opened BlockList
  import opened HeapSpec
  import opened HeapMemory
  import opened HeapLinks
  import HeapOps
  import HeapTheorems
  import opened Heap

  /** The state of the list and of memory between the steps: a live block of 112 zero bytes at the start. */
  ghost predicate HundredTaken(heap: KernelHeap)
    reads heap, heap.mem
  {
    && heap.Valid() && heap.heapInitialized && heap.State() == HeapOps.Malloc(HeapOps.Fresh, 100,
      HeapOps.HEAP_ALIGNMENT).0
    && ZeroFrom(heap.mem[..], HEAP_START + HDR, 0, 112)
  }

  /** heap_init and p = kmalloc(100). */
  method TakeHundred(memory: array<byte>) returns (heap: KernelHeap, p: nat)
    requires memory.Length == MEM_SIZE
    modifies memory
    ensures fresh(heap) && heap.mem == memory && HundredTaken(heap) && p == HEAP_START + HDR
  {
    HeapTheorems.WrappedReallocOverruns();
    HeapTheorems.HundredRoundsUp();
    hide Linked, HeapOps.Malloc;
    heap := new KernelHeap(memory);
    heap.HeapInit();
    p := heap.Kmalloc(100);
  }

  /** The steps of krealloc(p, 2^32) up to the copy: the list is lost, and heap_validate says so. */
  method CopyForWrappedRequest(heap: KernelHeap, p: nat) returns (ok: bool)
    requires HundredTaken(heap) && p == HEAP_START + HDR
    modifies heap, heap.mem
    ensures heap.mem.Length == MEM_SIZE && !Linked(heap.mem[..], heap.blocks) && !ok
  {
    HeapTheorems.WrappedReallocOverruns();
    hide Linked, ZeroFrom, HeapOps.Malloc, HeapOps.CopyFits, HeapOps.Grows, HeapOps.Request, Allocated, FirstFit;
    ghost var m0, s0 := heap.mem[..], heap.State();
    var q := heap.Kmalloc(TWO32);
    ghost var m1, r := heap.mem[..], heap.blocks;
    WrappedGrant(s0);
    Surroundings(m1, r, 0);
    FirstPayloadZero(m0, m1, s0.blocks);
    heap.Memcpy(q, p, Load(heap.mem[..], p - HDR).size);
    OverrunHeader(m1, heap.mem[..], r, 1, p, 112);
    ok := heap.HeapValidate();
  }

  lemma WrappedGrant(s: HeapOps.State)
    requires s == HeapOps.Malloc(HeapOps.Fresh, 100, HeapOps.HEAP_ALIGNMENT).0
    ensures var (s', q) := HeapOps.Malloc(s, TWO32, HeapOps.HEAP_ALIGNMENT);
      s'.blocks == Allocated(s.blocks, 0) && q == HEAP_START + HDR + 112 + HDR
  {
    HeapTheorems.WrappedReallocOverruns();
    hide HeapOps.Request, FirstFit, Allocated;
    assert Granted(s.blocks, 0) == Allocated(s.blocks, 0)[1];
  }

  lemma FirstPayloadZero(m: seq<byte>, m': seq<byte>, bs: seq<Block>)
    requires |m| == |m'| == MEM_SIZE && bs != [] && bs[0] == Block(HEAP_START, 112, false)
    requires PayloadsKept(m, m', Live(bs)) && ZeroFrom(m, HEAP_START + HDR, 0, 112)
    ensures m'[HDR] == 0
  {
    assert bs[0] in Live(bs);
    assert m'[HDR] == m[HDR];
  }

  /** After heap_init and kmalloc(100), growing that block to 2^32 bytes destroys the list of blocks. */
  method WrappedReallocBreaksHeap(memory: array<byte>) returns (heap: KernelHeap, ok: bool)
    requires memory.Length == MEM_SIZE
    modifies memory
    ensures heap.mem == memory && !Linked(memory[..], heap.blocks) && !ok
  {
    var p: nat;
    heap, p := TakeHundred(memory);
    ok := CopyForWrappedRequest(heap, p);
  }
}
