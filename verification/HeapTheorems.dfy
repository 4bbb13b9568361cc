/** What holds of every run of heap operations, and of allocating and freeing in any order. */
module HeapTheorems {
  import opened BitOps
  import opened BlockList
  import opened HeapSpec
  import opened HeapOps

  // ---------------------------------------------------------------- runs

  /** A call of the heap's interface; the numbers are machine words. */
  datatype Call =
    | CallMalloc(size: nat, alignment: nat)
    | CallCalloc(nmemb: nat, size: nat)
    | CallRealloc(ptr: nat, newSize: nat)
    | CallFree(ptr: nat)
  {
    predicate Fits() {
      match this
      case CallMalloc(size, alignment) => size < TWO64 && alignment < TWO32
      case CallCalloc(nmemb, size) => nmemb < TWO64 && size < TWO64
      case CallRealloc(ptr, newSize) => newSize < TWO64
      case CallFree(ptr) => true
    }
  }

  function Step(s: State, c: Call): State
    requires c.Fits()
  {
    match c
    case CallMalloc(size, alignment) => Malloc(s, size, alignment).0
    case CallCalloc(nmemb, size) => Calloc(s, nmemb, size).0
    case CallRealloc(ptr, newSize) => Realloc(s, ptr, newSize).0
    case CallFree(ptr) => Free(s, ptr)
  }

  /** A call that the code survives: the one danger is a copy past the granted payload. */
  predicate Admissible(s: State, c: Call) {
    c.Fits() && (c.CallRealloc? ==> CopyFits(s, c.ptr, c.newSize))
  }

  /** Each call is admissible in the state in which it is made. */
  predicate AllAdmissible(s: State, calls: seq<Call>)
    decreases |calls|
  {
    calls == [] || (Admissible(s, calls[0]) && AllAdmissible(Step(s, calls[0]), calls[1..]))
  }

  function Run(s: State, calls: seq<Call>): State
    requires AllAdmissible(s, calls)
    decreases |calls|
  {
    if calls == [] then s else Run(Step(s, calls[0]), calls[1..])
  }

  /** The state invariant: canonical blocks, and counters that agree with them. */
  ghost predicate Sound(s: State) {
    && s.ready && Canonical(s.blocks)
    && s.allocations < TWO32 && s.frees < TWO32 && s.failures < TWO32
    && (s.allocations - s.frees - |Live(s.blocks)|) % TWO32 == 0
  }

  lemma FreshSound()
    ensures Sound(Fresh)
  {
    assert FreshBlocks[1..] == [] && Tiles(FreshBlocks[1..], HEAP_END, HEAP_END);
    assert Live(FreshBlocks) == {};
  }

  lemma IncShifts(a: nat, f: nat, n: nat, a': nat, f': nat, n': nat)
    requires (a - f - n) % TWO32 == 0
    requires (a' == Inc(a) && f' == f && n' == n + 1) || (a' == a && f' == Inc(f) && n' + 1 == n)
    ensures (a' - f' - n') % TWO32 == 0
  {
  }

  lemma MallocSound(s: State, size: nat, alignment: nat)
    requires Sound(s) && size < TWO64 && alignment < TWO32
    ensures Sound(Malloc(s, size, alignment).0)
  {
    hide Canonical, Live, Allocated, FirstFit, AlignUp;
    var n := Request(size, alignment);
    if size > 0 && FirstFit(s.blocks, n) < |s.blocks| {
      AllocatedCanonical(s.blocks, n);
      AllocatedLive(s.blocks, n);
      IncShifts(s.allocations, s.frees, |Live(s.blocks)|, Inc(s.allocations), s.frees, |Live(Allocated(s.blocks, n))|);
    }
  }

  /** Freeing a live pointer takes exactly its block from the live ones. */
  lemma FreedOne(bs: seq<Block>, ptr: nat)
    requires Canonical(bs) && IsLive(bs, ptr)
    ensures Canonical(Freed(bs, ptr - HDR))
    ensures Live(Freed(bs, ptr - HDR)) == Live(bs) - {bs[BlockOf(bs, ptr)]}
    ensures |Live(Freed(bs, ptr - HDR))| + 1 == |Live(bs)|
  {
    hide Freed, Canonical;
    var i := BlockOf(bs, ptr);
    assert Canonical(bs) ==> WellFormed(bs) by { CanonicalWellFormed(bs); }
    LiveByAddress(bs, HEAP_START, HEAP_END, i);
    FreedCanonical(bs, ptr - HDR);
    FreedLive(bs, ptr - HDR);
    ListedLive(bs, i);
  }

  lemma CanonicalWellFormed(bs: seq<Block>)
    ensures Canonical(bs) ==> WellFormed(bs) && NoAdjacentFree(bs)
  {
  }

  lemma FreeSound(s: State, ptr: nat)
    requires Sound(s)
    ensures Sound(Free(s, ptr))
  {
    hide Canonical, Live, Freed, BlockOf;
    if IsLive(s.blocks, ptr) {
      FreedOne(s.blocks, ptr);
      var freed := Freed(s.blocks, ptr - HDR);
      IncShifts(s.allocations, s.frees, |Live(s.blocks)|, s.allocations, Inc(s.frees), |Live(freed)|);
    }
  }

  lemma StepSound(s: State, c: Call)
    requires Sound(s) && Admissible(s, c)
    ensures Sound(Step(s, c))
  {
    hide Sound;
    match c
    case CallMalloc(size, alignment) => MallocSound(s, size, alignment);
    case CallCalloc(nmemb, size) => CallocSound(s, nmemb, size);
    case CallRealloc(ptr, newSize) => ReallocSound(s, ptr, newSize);
    case CallFree(ptr) => FreeSound(s, ptr);
  }

  lemma CallocSound(s: State, nmemb: nat, size: nat)
    requires Sound(s) && nmemb < TWO64 && size < TWO64
    ensures Sound(Calloc(s, nmemb, size).0)
  {
    hide Malloc, Canonical;
    MallocSound(s, (nmemb * size) % TWO64, HEAP_ALIGNMENT);
  }

  lemma ReallocSound(s: State, ptr: nat, newSize: nat)
    requires Sound(s) && newSize < TWO64
    ensures Sound(Realloc(s, ptr, newSize).0)
  {
    hide Malloc, Free, Sound;
    MallocSound(s, newSize, HEAP_ALIGNMENT);
    FreeSound(s, ptr);
    FreeSound(Malloc(s, newSize, HEAP_ALIGNMENT).0, ptr);
  }

  /** The invariant holds after every run from initialisation. */
  lemma {:induction false} RunSound(s: State, calls: seq<Call>)
    requires Sound(s) && AllAdmissible(s, calls)
    ensures Sound(Run(s, calls))
    decreases |calls|
  {
    if calls != [] {
      StepSound(s, calls[0]);
      RunSound(Step(s, calls[0]), calls[1..]);
    }
  }

  lemma ResidueIs(a: nat, f: nat, n: nat)
    requires (a - f - n) % TWO32 == 0 && n < TWO32
    ensures n == (a - f) % TWO32
  {
  }

  lemma SoundAccounting(s: State)
    requires Sound(s)
    ensures SumSizes(s.blocks, false) + SumSizes(s.blocks, true) + HDR * |s.blocks| == HEAP_SIZE
    ensures CountBlocks(s.blocks, false) == |Live(s.blocks)| == (s.allocations - s.frees) % TWO32
    ensures CountBlocks(s.blocks, false) + CountBlocks(s.blocks, true) == |s.blocks|
  {
    hide Live, Tiles, Extent, SumSizes, CountBlocks, NoAdjacentFree;
    SizesBalance(s.blocks);
    TilesExtent(s.blocks, HEAP_START, HEAP_END);
    CountLive(s.blocks, HEAP_START, HEAP_END);
    BlocksBounded(s.blocks);
    ResidueIs(s.allocations, s.frees, |Live(s.blocks)|);
  }

  /** The accounting identities of every reachable state. */
  lemma RunAccounting(calls: seq<Call>)
    requires AllAdmissible(Fresh, calls)
    ensures var s := Run(Fresh, calls);
      && SumSizes(s.blocks, false) + SumSizes(s.blocks, true) + HDR * |s.blocks| == HEAP_SIZE
      && CountBlocks(s.blocks, false) == |Live(s.blocks)| == (s.allocations - s.frees) % TWO32
      && CountBlocks(s.blocks, false) + CountBlocks(s.blocks, true) == |s.blocks|
  {
    hide Run, Sound, AllAdmissible;
    FreshSound();
    RunSound(Fresh, calls);
    SoundAccounting(Run(Fresh, calls));
  }

  lemma {:induction false} BlocksBounded(bs: seq<Block>)
    ensures HDR * |bs| <= Extent(bs)
  {
    if bs != [] { BlocksBounded(bs[1..]); }
  }

  /** Two runs that leave the same allocations outstanding leave the same list of blocks. */
  lemma RunsCanonical(calls1: seq<Call>, calls2: seq<Call>)
    requires AllAdmissible(Fresh, calls1) && AllAdmissible(Fresh, calls2)
    requires Live(Run(Fresh, calls1).blocks) == Live(Run(Fresh, calls2).blocks)
    ensures Run(Fresh, calls1).blocks == Run(Fresh, calls2).blocks
  {
    FreshSound();
    RunSound(Fresh, calls1);
    RunSound(Fresh, calls2);
    CanonicalUnique(Run(Fresh, calls1).blocks, Run(Fresh, calls2).blocks);
  }

  // ---------------------------------------------------------------- isolation

  /** Live payloads lie in the heap, and clear of each other and of every header. */
  lemma LiveIsolated(bs: seq<Block>, i: nat, j: nat)
    requires Canonical(bs) && i < |bs| && j < |bs| && i != j
    ensures HEAP_START <= bs[i].addr && bs[i].End() <= HEAP_END
    ensures bs[i].End() <= bs[j].addr || bs[j].End() <= bs[i].addr
  {
    TilesOrdered(bs, HEAP_START, HEAP_END);
  }

  // ---------------------------------------------------------------- freeing

  function FreeAll(bs: seq<Block>, addrs: seq<nat>): seq<Block>
    decreases |addrs|
  {
    if addrs == [] then bs else FreeAll(Freed(bs, addrs[0]), addrs[1..])
  }

  lemma {:induction false} FreeAllLive(bs: seq<Block>, addrs: seq<nat>)
    requires Canonical(bs)
    ensures Canonical(FreeAll(bs, addrs))
    ensures Live(FreeAll(bs, addrs)) == set b | b in Live(bs) && b.addr !in addrs
    decreases |addrs|
  {
    if addrs != [] {
      FreedCanonical(bs, addrs[0]);
      FreedLive(bs, addrs[0]);
      FreeAllLive(Freed(bs, addrs[0]), addrs[1..]);
      assert forall a :: a in addrs <==> a == addrs[0] || a in addrs[1..];
    }
  }

  /** Only which blocks are freed matters: not the order, and not how often each is freed. */
  lemma FreeingOrderIrrelevant(bs: seq<Block>, addrs1: seq<nat>, addrs2: seq<nat>)
    requires Canonical(bs)
    requires forall a :: a in addrs1 <==> a in addrs2
    ensures FreeAll(bs, addrs1) == FreeAll(bs, addrs2)
  {
    FreeAllLive(bs, addrs1);
    FreeAllLive(bs, addrs2);
    CanonicalUnique(FreeAll(bs, addrs1), FreeAll(bs, addrs2));
  }

  /** Freeing every allocation gives back the one free block that initialisation makes. */
  lemma FreeingEverything(bs: seq<Block>, addrs: seq<nat>)
    requires Canonical(bs) && forall b :: b in Live(bs) ==> b.addr in addrs
    ensures FreeAll(bs, addrs) == [Block(HEAP_START, HEAP_SIZE - HDR, true)]
  {
    FreshSound();
    FreeAllLive(bs, addrs);
    assert Live(FreeAll(bs, addrs)) == {} == Live(FreshBlocks);
    CanonicalUnique(FreeAll(bs, addrs), FreshBlocks);
  }

  lemma GrantedIsLive(bs: seq<Block>, n: nat)
    requires Canonical(bs) && FirstFit(bs, n) < |bs|
    ensures var r, p := Allocated(bs, n), Granted(bs, n).addr + HDR;
      !IsLive(bs, p) && BlockOf(r, p) == FirstFit(bs, n) && IsLive(r, p) && r[BlockOf(r, p)] == Granted(bs, n)
  {
    var r, i := Allocated(bs, n), FirstFit(bs, n);
    AllocatedCanonical(bs, n);
    FindUnique(bs, HEAP_START, HEAP_END, i);
    FindUnique(r, HEAP_START, HEAP_END, i);
  }

  lemma FreeUndoesAllocated(bs: seq<Block>, n: nat)
    requires Canonical(bs) && FirstFit(bs, n) < |bs|
    ensures Freed(Allocated(bs, n), Granted(bs, n).addr) == bs
  {
    hide Allocated, Granted, Freed, Canonical, FirstFit, BlockOf;
    var r, p := Allocated(bs, n), Granted(bs, n).addr + HDR;
    GrantedIsLive(bs, n);
    AllocatedCanonical(bs, n);
    AllocatedLive(bs, n);
    FreedOne(r, p);
    assert Live(Freed(r, p - HDR)) == Live(bs);
    CanonicalUnique(Freed(r, p - HDR), bs);
  }

  /** Freeing what was just allocated restores the list exactly. */
  lemma FreeUndoesMalloc(s: State, size: nat, alignment: nat)
    requires Sound(s) && size < TWO64 && alignment < TWO32
    requires Malloc(s, size, alignment).1 != NULL
    ensures var (s', p) := Malloc(s, size, alignment);
      && !IsLive(s.blocks, p) && IsLive(s'.blocks, p)
      && Free(s', p).blocks == s.blocks
  {
    hide Canonical, Allocated, Granted, Freed, FirstFit, IsLive, Request;
    GrantedIsLive(s.blocks, Request(size, alignment));
    FreeUndoesAllocated(s.blocks, Request(size, alignment));
  }

  /** A freed pointer, and one into the middle of anything, can be freed again without effect. */
  lemma FreeOfDeadPointer(s: State, ptr: nat)
    requires Sound(s)
    ensures Free(s, ptr) == s <==> !IsLive(s.blocks, ptr)
    ensures Free(Free(s, ptr), ptr) == Free(s, ptr)
  {
    LiveMeaning(s.blocks, ptr);
    if IsLive(s.blocks, ptr) {
      FreedCanonical(s.blocks, ptr - HDR);
      FreedLive(s.blocks, ptr - HDR);
      LiveMeaning(Freed(s.blocks, ptr - HDR), ptr);
    }
  }

  /** A pointer is live when some live block's payload starts there. */
  lemma LiveMeaning(bs: seq<Block>, ptr: nat)
    requires Canonical(bs)
    ensures IsLive(bs, ptr) <==> exists b :: b in Live(bs) && b.addr + HDR == ptr
  {
    var i := BlockOf(bs, ptr);
    if i < |bs| {
      LiveByAddress(bs, HEAP_START, HEAP_END, i);
      ListedLive(bs, i);
    }
  }

  lemma ListedLive(bs: seq<Block>, i: nat)
    requires i < |bs|
    ensures bs[i] in Live(bs) <==> !bs[i].free
  {
  }

  // ---------------------------------------------------------------- first fit

  /** `n` payload bytes and a header fit at `x` without meeting a live block. */
  ghost predicate GapAt(bs: seq<Block>, x: nat, n: nat) {
    && HEAP_START <= x && x + HDR + n <= HEAP_END
    && forall b :: b in Live(bs) ==> b.End() <= x || x + HDR + n <= b.addr
  }

  lemma {:induction false} BlockContaining(bs: seq<Block>, lo: nat, hi: nat, x: nat) returns (j: nat)
    requires Tiles(bs, lo, hi) && lo <= x < hi
    ensures j < |bs| && bs[j].addr <= x < bs[j].End()
  {
    if x < bs[0].End() {
      j := 0;
    } else {
      var k := BlockContaining(bs[1..], bs[0].End(), hi, x);
      j := k + 1;
    }
  }

  /** Every gap lies inside one free block, because no two free blocks are adjacent. */
  lemma GapInsideFreeBlock(bs: seq<Block>, x: nat, n: nat) returns (j: nat)
    requires Canonical(bs) && GapAt(bs, x, n)
    ensures j < |bs| && Fits(bs[j], n) && bs[j].addr <= x && x + HDR + n <= bs[j].End()
  {
    j := BlockContaining(bs, HEAP_START, HEAP_END, x);
    ListedLive(bs, j);
    TilesAdjacent(bs, HEAP_START, HEAP_END, j);
    if j + 1 < |bs| { ListedLive(bs, j + 1); }
  }

  lemma FirstFitGap(bs: seq<Block>, n: nat)
    requires Canonical(bs) && FirstFit(bs, n) < |bs|
    ensures GapAt(bs, bs[FirstFit(bs, n)].addr, n)
  {
    TilesOrdered(bs, HEAP_START, HEAP_END);
  }

  /** First fit fails only when there is no gap, and otherwise takes the lowest one. */
  lemma FirstFitIsLowestGap(bs: seq<Block>, n: nat)
    requires Canonical(bs)
    ensures FirstFit(bs, n) == |bs| <==> !exists x: nat :: GapAt(bs, x, n)
    ensures FirstFit(bs, n) < |bs| ==>
      && GapAt(bs, bs[FirstFit(bs, n)].addr, n)
      && forall x: nat :: GapAt(bs, x, n) ==> bs[FirstFit(bs, n)].addr <= x
  {
    var i := FirstFit(bs, n);
    if i < |bs| { FirstFitGap(bs, n); }
    forall x: nat | GapAt(bs, x, n) ensures i < |bs| && bs[i].addr <= x {
      var j := GapInsideFreeBlock(bs, x, n);
      TilesOrdered(bs, HEAP_START, HEAP_END);
    }
  }

  /** In the block list, where it stands, a free block is a gap of its size and no more. */
  lemma GapAtBlock(bs: seq<Block>, i: nat, m: nat)
    requires Canonical(bs) && i < |bs| && bs[i].free
    ensures GapAt(bs, bs[i].addr, m) <==> m <= bs[i].size
  {
    TilesOrdered(bs, HEAP_START, HEAP_END);
    TilesAdjacent(bs, HEAP_START, HEAP_END, i);
    if i + 1 < |bs| { ListedLive(bs, i + 1); }
  }

  /**
    `g` is the block to hand out for `n` bytes: at the lowest gap, and of `n` bytes if 45 more would have fitted there,
    or else of all that fits.
   */
  ghost predicate BestGrant(bs: seq<Block>, n: nat, g: Block) {
    && !g.free && g !in Live(bs)
    && GapAt(bs, g.addr, n) && (forall x: nat :: GapAt(bs, x, n) ==> g.addr <= x)
    && if GapAt(bs, g.addr, n + 45) then g.size == n else GapAt(bs, g.addr, g.size) && !GapAt(bs, g.addr, g.size + 1)
  }

  /** What an allocation of `n` bytes does: it fails exactly when there is no gap, and else adds the best grant. */
  ghost predicate Allocates(s: State, n: nat, r: State, p: nat) {
    if p == NULL then
      && !(exists x: nat :: GapAt(s.blocks, x, n))
      && r == s.(failures := (s.failures + 1) % TWO32)
    else
      && Canonical(r.blocks)
      && r == s.(blocks := r.blocks, allocations := (s.allocations + 1) % TWO32)
      && exists g: Block :: BestGrant(s.blocks, n, g) && g.addr + HDR == p && Live(r.blocks) == Live(s.blocks) + {g}
  }

  lemma GrantedIsBest(bs: seq<Block>, n: nat)
    requires Canonical(bs) && FirstFit(bs, n) < |bs|
    ensures BestGrant(bs, n, Granted(bs, n)) && n <= Granted(bs, n).size < n + 45
  {
    var i, g := FirstFit(bs, n), Granted(bs, n);
    FirstFitIsLowestGap(bs, n);
    AllocatedLive(bs, n);
    GapAtBlock(bs, i, n + 45);
    GapAtBlock(bs, i, g.size);
    GapAtBlock(bs, i, g.size + 1);
    hide Canonical, Live, GapAt;
    GrantedSize(bs, n);
  }

  lemma GrantedSize(bs: seq<Block>, n: nat)
    requires FirstFit(bs, n) < |bs|
    ensures var b, g := bs[FirstFit(bs, n)], Granted(bs, n);
      g.addr == b.addr && g.size == if b.size >= n + 45 then n else b.size
  {
  }

  /** kmalloc fails exactly when there is no gap, and takes the lowest one, cut to measure if 45 bytes would be left. */
  lemma MallocComplete(s: State, size: nat, alignment: nat)
    requires Sound(s) && 0 < size < TWO64 && alignment < TWO32
    ensures var (r, p) := Malloc(s, size, alignment); Allocates(s, Request(size, alignment), r, p)
  {
    hide Request, BestGrant, Canonical, GapAt, Granted, Allocated, FirstFit;
    var n := Request(size, alignment);
    FirstFitIsLowestGap(s.blocks, n);
    if FirstFit(s.blocks, n) < |s.blocks| {
      AllocatedCanonical(s.blocks, n);
      AllocatedLive(s.blocks, n);
      GrantedIsBest(s.blocks, n);
      var g := Granted(s.blocks, n);
      assert Live(Allocated(s.blocks, n)) == Live(s.blocks) + {g};
    }
  }

  // ---------------------------------------------------------------- rounding

  lemma DefaultAlignmentIsPow2()
    ensures IsPow2(HEAP_ALIGNMENT)
  {
    assert IsPow2(4);
  }

  lemma EffectiveIsPow2(alignment: nat)
    requires alignment < TWO32
    ensures IsPow2(EffectiveAlignment(alignment))
    ensures EffectiveAlignment(alignment) == if IsPow2(alignment) then alignment else 16
  {
    DefaultAlignmentIsPow2();
    if alignment > 0 { PowerOfTwoTest(alignment); }
  }

  /** The bytes promised cover the request if and only if rounding it up stays within 32 bits. */
  lemma RequestCovers(size: nat, alignment: nat)
    requires 0 < size < TWO64 && alignment < TWO32
    ensures var n, a := Request(size, alignment), EffectiveAlignment(alignment);
      && (n >= size <==> size + a - 1 < TWO32)
      && (size + a - 1 < TWO32 ==> n % a == 0 && n < size + a)
  {
    EffectiveIsPow2(alignment);
    AlignUpExact(size, EffectiveAlignment(alignment));
  }

  lemma LargestPow2(a: nat)
    requires IsPow2(a) && a < TWO32
    ensures a <= 0x8000_0000
  {
    TwoToThe32IsPow2();
    if a > 0x8000_0000 {
      Pow2Divides(TWO32, a);
      DivModUnique(TWO32, a, 1, TWO32 - a);
    }
  }

  /** An allocation that succeeds has room for the request if and only if the rounding stays within 32 bits. */
  lemma MallocMeetsRequest(s: State, size: nat, alignment: nat)
    requires Sound(s) && 0 < size < TWO64 && alignment < TWO32
    requires FirstFit(s.blocks, Request(size, alignment)) < |s.blocks|
    ensures Granted(s.blocks, Request(size, alignment)).size >= size <==>
      size + EffectiveAlignment(alignment) - 1 < TWO32
  {
    hide Request, Granted, IsPow2;
    RequestCovers(size, alignment);
    EffectiveIsPow2(alignment);
    LargestPow2(EffectiveAlignment(alignment));
    TilesOrdered(s.blocks, HEAP_START, HEAP_END);
    GrantedInside(s.blocks, Request(size, alignment));
  }

  lemma GrantedInside(bs: seq<Block>, n: nat)
    requires FirstFit(bs, n) < |bs|
    ensures Granted(bs, n).size <= bs[FirstFit(bs, n)].size
  {
  }

  /**
    krealloc of a live pointer that grows gives a live block with room for the request if and only if the
    rounding stays within 32 bits.
   */
  lemma ReallocMeetsRequest(s: State, ptr: nat, newSize: nat)
    requires Sound(s) && newSize < TWO64 && IsLive(s.blocks, ptr) && Grows(s, ptr, newSize)
    requires Realloc(s, ptr, newSize).1 != NULL
    ensures var (r, p) := Realloc(s, ptr, newSize);
      exists b :: b in Live(r.blocks) && b.addr + HDR == p
                  && (b.size >= newSize <==> newSize + HEAP_ALIGNMENT - 1 < TWO32)
  {
    hide Request, IsPow2, BitAnd, EffectiveAlignment, Canonical, Live, FirstFit, Granted, Allocated, Freed;
    var n := Request(newSize, HEAP_ALIGNMENT);
    var b := Granted(s.blocks, n);
    DefaultAlignmentIsPow2();
    EffectiveIsPow2(HEAP_ALIGNMENT);
    MallocMeetsRequest(s, newSize, HEAP_ALIGNMENT);
    AllocatedCanonical(s.blocks, n);
    AllocatedLive(s.blocks, n);
    GrantSurvives(s.blocks, n, ptr);
    var (r, p) := Realloc(s, ptr, newSize);
    assert b in Live(r.blocks) && b.addr + HDR == p;
  }

  /** The block granted by an allocation outlives the release of any older one. */
  lemma GrantSurvives(bs: seq<Block>, n: nat, ptr: nat)
    requires Canonical(bs) && FirstFit(bs, n) < |bs| && IsLive(bs, ptr)
    ensures Granted(bs, n) in Live(Allocated(bs, n)) && Granted(bs, n) in Live(Freed(Allocated(bs, n), ptr - HDR))
  {
    hide Allocated, Granted, Freed;
    AllocatedCanonical(bs, n);
    AllocatedLive(bs, n);
    FreedLive(Allocated(bs, n), ptr - HDR);
    TilesOrdered(bs, HEAP_START, HEAP_END);
  }

  /** On the state before the call: whether the copy of a live block of `k` bytes fits when `n` bytes are asked for. */
  predicate FitsBefore(bs: seq<Block>, k: nat, n: nat) {
    var g := FirstFit(bs, n);
    g == |bs| || k <= n || (bs[g].size < n + HDR + MIN_PAYLOAD && k <= bs[g].size)
  }

  /**
    For a live block that grows, the copy fits if and only if there is no room, the rounded request is no smaller than
    the block, or the block found is large enough and too small to be split. Requests below 2^32 - 15 always fit.
   */
  lemma CopyFitsExactly(s: State, ptr: nat, newSize: nat)
    requires newSize < TWO64 && Grows(s, ptr, newSize)
    ensures var k, n := s.blocks[BlockOf(s.blocks, ptr)].size, Request(newSize, HEAP_ALIGNMENT);
      && (IsLive(s.blocks, ptr) ==> (CopyFits(s, ptr, newSize) <==> FitsBefore(s.blocks, k, n)))
      && (k <= n ==> CopyFits(s, ptr, newSize))
    ensures newSize + HEAP_ALIGNMENT - 1 < TWO32 ==> AsksForMore(s, ptr, newSize) && CopyFits(s, ptr, newSize)
  {
    hide Request, IsPow2, BitAnd, EffectiveAlignment, BlockOf, FirstFit;
    DefaultAlignmentIsPow2();
    EffectiveIsPow2(HEAP_ALIGNMENT);
    RequestCovers(newSize, HEAP_ALIGNMENT);
  }

  /** The `size` bytes of a payload at block address `p` lie in the heap and meet no header of `bs`. */
  ghost predicate ClearOfHeaders(bs: seq<Block>, p: nat, size: nat) {
    p + HDR + size <= HEAP_END
    && forall k :: 0 <= k < |bs| ==> bs[k].addr <= p || p + HDR + size <= bs[k].addr
  }

  /** After a successful growth the copy stays clear of every header if and only if it fits the granted payload. */
  lemma CopyStaysInside(s: State, ptr: nat, newSize: nat)
    requires Canonical(s.blocks) && newSize < TWO64 && Grows(s, ptr, newSize)
    requires FirstFit(s.blocks, Request(newSize, HEAP_ALIGNMENT)) < |s.blocks|
    ensures var n, i := Request(newSize, HEAP_ALIGNMENT), BlockOf(s.blocks, ptr);
      CopyFits(s, ptr, newSize) <==>
        ClearOfHeaders(Allocated(s.blocks, n), Granted(s.blocks, n).addr, CopySize(s.blocks, n, i))
  {
    hide Request, BlockOf, CopySize, FirstFit, Canonical;
    var n := Request(newSize, HEAP_ALIGNMENT);
    AllocatedCanonical(s.blocks, n);
    CanonicalWellFormed(Allocated(s.blocks, n));
    PayloadEnds(Allocated(s.blocks, n), FirstFit(s.blocks, n), CopySize(s.blocks, n, BlockOf(s.blocks, ptr)));
  }

  lemma PayloadEnds(bs: seq<Block>, g: nat, size: nat)
    requires WellFormed(bs) && g < |bs|
    ensures ClearOfHeaders(bs, bs[g].addr, size) <==> size <= bs[g].size
  {
    TilesOrdered(bs, HEAP_START, HEAP_END);
    TilesAdjacent(bs, HEAP_START, HEAP_END, g);
  }

  /** A request of 2^32 bytes is rounded to none at all, and succeeds on a fresh heap. */
  lemma WrappedRequest()
    ensures Request(TWO32, HEAP_ALIGNMENT) == 0
    ensures Malloc(Fresh, TWO32, HEAP_ALIGNMENT).1 == HEAP_START + HDR
    ensures Live(Malloc(Fresh, TWO32, HEAP_ALIGNMENT).0.blocks) == {Block(HEAP_START, 0, false)}
  {
    WrappedRequestIsZero();
    FreshSound();
    AllocatedLive(FreshBlocks, 0);
    assert FirstFit(FreshBlocks, 0) == 0;
    assert Live(FreshBlocks) == {};
  }

  lemma WrappedRequestIsZero()
    ensures Request(TWO32, HEAP_ALIGNMENT) == 0
  {
    EffectiveIsPow2(HEAP_ALIGNMENT);
    DefaultAlignmentIsPow2();
    TwoToThe32IsPow2();
    AlignUpOfModulus(HEAP_ALIGNMENT, TWO32);
  }

  /** After kmalloc(100), krealloc of that pointer to 2^32 bytes is granted an empty payload for 112 bytes. */
  lemma WrappedReallocOverruns()
    ensures var s, p := Malloc(Fresh, 100, HEAP_ALIGNMENT).0, HEAP_START + HDR;
      && Malloc(Fresh, 100, HEAP_ALIGNMENT).1 == p && s.blocks[0] == Block(HEAP_START, 112, false)
      && Request(TWO32, HEAP_ALIGNMENT) == 0 && FirstFit(s.blocks, 0) == 1
      && |Allocated(s.blocks, 0)| == 3
      && Allocated(s.blocks, 0)[0] == s.blocks[0]
      && Allocated(s.blocks, 0)[1] == Block(HEAP_START + HDR + 112, 0, false)
      && Grows(s, p, TWO32) && !CopyFits(s, p, TWO32)
  {
    WrappedRequestIsZero();
    HundredRoundsUp();
    assert FirstFit(FreshBlocks, 112) == 0;
    var s := Malloc(Fresh, 100, 16).0;
    assert s.blocks == [Block(HEAP_START, 112, false),
                        Block(HEAP_START + HDR + 112, HEAP_SIZE - HDR - 112 - HDR, true)];
    hide Request, AlignUp, BitAnd;
    assert s.blocks[1..] == [s.blocks[1]];
    assert FirstFit(s.blocks, 0) == 1;
  }

  lemma HundredRoundsUp()
    ensures Request(100, HEAP_ALIGNMENT) == 112
  {
    DefaultAlignmentIsPow2();
    EffectiveIsPow2(HEAP_ALIGNMENT);
    TwoToThe32IsPow2();
    hide BitAnd, IsPow2;
    MaskMeaning(115, TWO32, 16);
  }
}
