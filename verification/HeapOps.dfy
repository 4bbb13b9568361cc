/** The heap operations on block lists and counters: what each call of kmalloc.c does to the state, and returns. */
module HeapOps {
  import opened BitOps
  import opened BlockList
  import opened HeapSpec

  const HEAP_ALIGNMENT: nat := 16

  datatype State = State(ready: bool, blocks: seq<Block>, allocations: nat, frees: nat, failures: nat)

  /** A 32-bit counter after one increment. */
  function Inc(n: nat): nat {
    (n + 1) % TWO32
  }

  const FreshBlocks: seq<Block> := [Block(HEAP_START, HEAP_SIZE - HDR, true)]

  const Fresh: State := State(true, FreshBlocks, 0, 0, 0)

  /** Alignments that are zero or not a power of two are replaced by the default one. */
  function EffectiveAlignment(alignment: nat): (a: nat)
    requires alignment < TWO32
    ensures 0 < a < TWO32
  {
    if alignment == 0 || BitAnd(alignment, alignment - 1) != 0 then HEAP_ALIGNMENT else alignment
  }

  /** The payload bytes asked of the block list for a request of `size` bytes. */
  function Request(size: nat, alignment: nat): nat
    requires size < TWO64 && alignment < TWO32
  {
    AlignUp(size, EffectiveAlignment(alignment))
  }

  function Malloc(s: State, size: nat, alignment: nat): (r: (State, nat))
    requires size < TWO64 && alignment < TWO32
  {
    if !s.ready then (s.(failures := Inc(s.failures)), NULL)
    else if size == 0 then (s, NULL)
    else
      var n := Request(size, alignment);
      if FirstFit(s.blocks, n) == |s.blocks| then (s.(failures := Inc(s.failures)), NULL)
      else (s.(blocks := Allocated(s.blocks, n), allocations := Inc(s.allocations)), Granted(s.blocks, n).addr + HDR)
  }

  function Product(nmemb: nat, size: nat): (p: nat) {
    nmemb * size
  }

  function Calloc(s: State, nmemb: nat, size: nat): (r: (State, nat))
    requires nmemb < TWO64 && size < TWO64
  {
    var total := Product(nmemb, size) % TWO64;
    if nmemb != 0 && total / nmemb != size then (s.(failures := Inc(s.failures)), NULL)
    else Malloc(s, total, HEAP_ALIGNMENT)
  }

  /** The division test detects exactly the products that 64 bits cannot hold. */
  lemma CallocOverflow(nmemb: nat, size: nat)
    requires nmemb < TWO64 && size < TWO64
    ensures nmemb == 0 ==> Product(nmemb, size) == 0
    ensures nmemb != 0 ==> ((Product(nmemb, size) % TWO64) / nmemb == size <==> Product(nmemb, size) < TWO64)
    ensures Product(nmemb, size) < TWO64 ==> Product(nmemb, size) % TWO64 == Product(nmemb, size)
  {
    if nmemb != 0 {
      var p, t := nmemb * size, (nmemb * size) % TWO64;
      if p < TWO64 {
        DivModUnique(p, TWO64, 0, p);
        DivModUnique(p, nmemb, size, 0);
      } else {
        var q := t / nmemb;
        assert t == q * nmemb + t % nmemb;
        assert q >= size ==> q * nmemb >= size * nmemb;
      }
    }
  }

  /** The index of the block whose payload starts at `ptr`, or |bs| when there is none. */
  function BlockOf(bs: seq<Block>, ptr: nat): (i: nat)
    ensures i <= |bs|
    ensures i < |bs| ==> bs[i].addr + HDR == ptr
    ensures forall k :: 0 <= k < i ==> bs[k].addr + HDR != ptr
  {
    if ptr < HDR then |bs| else Find(bs, ptr - HDR)
  }

  predicate IsLive(bs: seq<Block>, ptr: nat) {
    var i := BlockOf(bs, ptr);
    i < |bs| && !bs[i].free
  }

  function Free(s: State, ptr: nat): (r: State) {
    if s.ready && IsLive(s.blocks, ptr)
    then s.(blocks := Freed(s.blocks, ptr - HDR), frees := Inc(s.frees))
    else s
  }

  /** Allocating anew and releasing the old block. */
  function Move(s: State, ptr: nat, newSize: nat): (r: (State, nat))
    requires newSize < TWO64
  {
    var (s', p) := Malloc(s, newSize, HEAP_ALIGNMENT);
    if p == NULL then (s', NULL) else (Free(s', ptr), p)
  }

  function Realloc(s: State, ptr: nat, newSize: nat): (r: (State, nat))
    requires newSize < TWO64
  {
    if ptr == NULL then Malloc(s, newSize, HEAP_ALIGNMENT)
    else if newSize == 0 then (Free(s, ptr), NULL)
    else
      var i := BlockOf(s.blocks, ptr);
      if i == |s.blocks| then (s, NULL)
      else if newSize <= s.blocks[i].size then (s, ptr)
      else Move(s, ptr, newSize)
  }

  /** The reallocations that need a new block: a listed block too small for the request. */
  predicate Grows(s: State, ptr: nat, newSize: nat) {
    var i := BlockOf(s.blocks, ptr);
    ptr != NULL && newSize != 0 && i < |s.blocks| && newSize > s.blocks[i].size
  }

  /**
    The bytes krealloc copies: the old block's size, read after the allocation, which may have taken that very
    block.
   */
  function CopySize(bs: seq<Block>, n: nat, i: nat): nat
    requires i < |bs| && FirstFit(bs, n) < |bs|
  {
    if i == FirstFit(bs, n) then Granted(bs, n).size else bs[i].size
  }

  /** The copy of krealloc, if it comes to one, stays inside the payload of the granted block. */
  predicate CopyFits(s: State, ptr: nat, newSize: nat)
    requires newSize < TWO64
  {
    var n, i := Request(newSize, HEAP_ALIGNMENT), BlockOf(s.blocks, ptr);
    Grows(s, ptr, newSize) && FirstFit(s.blocks, n) < |s.blocks| ==>
      CopySize(s.blocks, n, i) <= Granted(s.blocks, n).size
  }

  /** A growing reallocation asks for more bytes than the old block has. */
  predicate AsksForMore(s: State, ptr: nat, newSize: nat)
    requires newSize < TWO64
  {
    Grows(s, ptr, newSize) ==> Request(newSize, HEAP_ALIGNMENT) > s.blocks[BlockOf(s.blocks, ptr)].size
  }
}
