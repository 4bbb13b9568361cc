/** What each call of the heap does, in terms of live blocks, gaps and counters alone. */
module HeapCalls {
  import opened BitOps
  import opened BlockList
  import opened HeapSpec
  import opened HeapOps
  import opened HeapTheorems
  import Heap

  // ---------------------------------------------------------------- releasing

  /** `r` is `s` with the block `b` given back. */
  ghost predicate Releases(s: State, b: Block, r: State) {
    && Canonical(r.blocks) && Live(r.blocks) == Live(s.blocks) - {b}
    && r == s.(blocks := r.blocks, frees := (s.frees + 1) % TWO32)
  }

  lemma LiveIsListed(bs: seq<Block>, b: Block)
    requires Canonical(bs) && b in Live(bs)
    ensures var i := BlockOf(bs, b.addr + HDR);
      i < |bs| && bs[i] == b && IsLive(bs, b.addr + HDR)
  {
    var k :| 0 <= k < |bs| && bs[k] == b;
    FindUnique(bs, HEAP_START, HEAP_END, k);
  }

  /** kfree of a live pointer. */
  lemma FreeComplete(s: State, b: Block)
    requires Sound(s) && b in Live(s.blocks)
    ensures Releases(s, b, Free(s, b.addr + HDR))
  {
    hide Freed;
    LiveIsListed(s.blocks, b);
    FreedOne(s.blocks, b.addr + HDR);
  }

  /** kfree of any other pointer. */
  lemma FreeOfOther(s: State, ptr: nat)
    requires Sound(s) && forall b :: b in Live(s.blocks) ==> b.addr + HDR != ptr
    ensures Free(s, ptr) == s
  {
    LiveMeaning(s.blocks, ptr);
  }

  // ---------------------------------------------------------------- kmalloc and kcalloc

  lemma MallocOfZero(s: State, alignment: nat)
    requires Sound(s) && alignment < TWO32
    ensures Malloc(s, 0, alignment) == (s, NULL)
  {
  }

  /** Before initialisation every allocation fails and is counted, and nothing can be freed. */
  lemma NotReady(s: State, size: nat, alignment: nat, ptr: nat)
    requires !s.ready && size < TWO64 && alignment < TWO32
    ensures Malloc(s, size, alignment) == (s.(failures := (s.failures + 1) % TWO32), NULL)
    ensures Free(s, ptr) == s
  {
  }

  /** kcalloc refuses what 64 bits cannot hold, and otherwise allocates the product as kmalloc does. */
  lemma CallocComplete(s: State, nmemb: nat, size: nat)
    requires Sound(s) && nmemb < TWO64 && size < TWO64
    ensures var (r, p) := Calloc(s, nmemb, size);
      && (nmemb * size >= TWO64 ==> p == NULL && r == s.(failures := (s.failures + 1) % TWO32))
      && (nmemb * size == 0 ==> p == NULL && r == s)
      && (0 < nmemb * size < TWO64 ==> Allocates(s, Request(nmemb * size, 16), r, p))
  {
    hide Malloc, Allocates, Sound, Request;
    CallocOverflow(nmemb, size);
    if Product(nmemb, size) == 0 {
      MallocOfZero(s, HEAP_ALIGNMENT);
    } else if Product(nmemb, size) < TWO64 {
      MallocComplete(s, Product(nmemb, size), HEAP_ALIGNMENT);
    }
  }

  // ---------------------------------------------------------------- krealloc

  /** `b` is exchanged for the best grant for `n` bytes, or kept when there is no gap. */
  ghost predicate Moves(s: State, b: Block, n: nat, r: State, p: nat) {
    if p == NULL then
      && !(exists x: nat :: GapAt(s.blocks, x, n))
      && r == s.(failures := (s.failures + 1) % TWO32)
    else
      && Canonical(r.blocks)
      && r == s.(blocks := r.blocks, allocations := (s.allocations + 1) % TWO32, frees := (s.frees + 1) % TWO32)
      && exists g: Block ::
           BestGrant(s.blocks, n, g) && g.addr + HDR == p && Live(r.blocks) == Live(s.blocks) - {b} + {g}
  }

  /** A listed block that is too small is moved: an allocation, and then the release of the old pointer. */
  lemma ReallocIsMove(s: State, b: Block, newSize: nat)
    requires WellFormed(s.blocks) && b in s.blocks && b.size < newSize < TWO64
    ensures var (s', p) := Malloc(s, newSize, HEAP_ALIGNMENT);
      Realloc(s, b.addr + HDR, newSize) == if p == NULL then (s', NULL) else (Free(s', b.addr + HDR), p)
  {
    hide Malloc, Free;
    var k :| 0 <= k < |s.blocks| && s.blocks[k] == b;
    FindUnique(s.blocks, HEAP_START, HEAP_END, k);
  }

  lemma SoundIsTiled(s: State)
    requires Sound(s)
    ensures WellFormed(s.blocks) && s.ready
    ensures forall b :: b in Live(s.blocks) ==> b in s.blocks
  {
  }

  /** Growing a live block. */
  lemma ReallocGrows(s: State, b: Block, newSize: nat)
    requires Sound(s) && b in Live(s.blocks) && b.size < newSize < TWO64
    ensures var (r, p) := Realloc(s, b.addr + HDR, newSize); Moves(s, b, Request(newSize, 16), r, p)
  {
    hide Request, BestGrant, Malloc, Free, GapAt, Realloc, Live, Canonical, Tiles;
    SoundIsTiled(s);
    ReallocIsMove(s, b, newSize);
    var (s', p) := Malloc(s, newSize, HEAP_ALIGNMENT);
    MallocComplete(s, newSize, HEAP_ALIGNMENT);
    if p != NULL {
      MallocSound(s, newSize, HEAP_ALIGNMENT);
      FreeComplete(s', b);
      var g: Block :| BestGrant(s.blocks, Request(newSize, 16), g) && g.addr + HDR == p
                      && Live(s'.blocks) == Live(s.blocks) + {g};
      GrantIsNew(s.blocks, Request(newSize, 16), g);
      assert Live(s.blocks) + {g} - {b} == Live(s.blocks) - {b} + {g};
    }
  }

  lemma GrantIsNew(bs: seq<Block>, n: nat, g: Block)
    requires BestGrant(bs, n, g)
    ensures g !in Live(bs)
  {
  }

  /** A size that fits leaves everything as it is. */
  lemma ReallocFits(s: State, b: Block, newSize: nat)
    requires Sound(s) && b in s.blocks && 0 < newSize <= b.size && newSize < TWO64
    ensures Realloc(s, b.addr + HDR, newSize) == (s, b.addr + HDR)
  {
    var k :| 0 <= k < |s.blocks| && s.blocks[k] == b;
    FindUnique(s.blocks, HEAP_START, HEAP_END, k);
  }

  /** Size zero releases a live block. */
  lemma ReallocToZero(s: State, b: Block)
    requires Sound(s) && b in Live(s.blocks)
    ensures var (r, p) := Realloc(s, b.addr + HDR, 0); p == NULL && Releases(s, b, r)
  {
    FreeComplete(s, b);
  }

  /** A NULL pointer allocates. */
  lemma ReallocOfNull(s: State, newSize: nat)
    requires Sound(s) && newSize < TWO64
    ensures var (r, p) := Realloc(s, NULL, newSize);
      if newSize == 0 then r == s && p == NULL else Allocates(s, Request(newSize, 16), r, p)
  {
    hide Malloc, Allocates, Sound, Request;
    if newSize == 0 {
      MallocOfZero(s, HEAP_ALIGNMENT);
    } else {
      MallocComplete(s, newSize, HEAP_ALIGNMENT);
    }
  }

  /** A pointer to no listed block, or size zero for a pointer to no live one, changes nothing. */
  lemma ReallocOfOther(s: State, ptr: nat, newSize: nat)
    requires Sound(s) && newSize < TWO64 && ptr != NULL
    requires forall b :: b in s.blocks && b.addr + HDR == ptr ==> newSize == 0 && b.free
    ensures Realloc(s, ptr, newSize) == (s, NULL)
  {
    hide Malloc;
    if newSize == 0 {
      FreeOfOther(s, ptr);
    }
  }

  /**
    Growing a block that was freed already: an allocation like any other, unless it takes that very block, which is
    then released again.
   */
  lemma ReallocOfFree(s: State, b: Block, newSize: nat)
    requires Sound(s) && b in s.blocks && b.free && b.size < newSize < TWO64
    ensures var (r, p) := Realloc(s, b.addr + HDR, newSize);
      if p == b.addr + HDR then
        r == s.(allocations := (s.allocations + 1) % TWO32, frees := (s.frees + 1) % TWO32)
      else
        Allocates(s, Request(newSize, 16), r, p)
  {
    hide Request, Malloc, Free, Realloc, Allocates, BlockOf;
    ReallocIsMove(s, b, newSize);
    var n := Request(newSize, HEAP_ALIGNMENT);
    var (s', p) := Malloc(s, newSize, HEAP_ALIGNMENT);
    MallocComplete(s, newSize, HEAP_ALIGNMENT);
    MallocSound(s, newSize, HEAP_ALIGNMENT);
    if p == b.addr + HDR {
      AllocationCounts(s, n, s', p);
      FreeUndoesMalloc(s, newSize, HEAP_ALIGNMENT);
      FreeCounts(s', p);
    } else if p != NULL {
      StillDead(s, b, n, s', p);
      FreeOfOther(s', b.addr + HDR);
    }
  }

  lemma AllocationCounts(s: State, n: nat, r: State, p: nat)
    requires Allocates(s, n, r, p) && p != NULL
    ensures r == s.(blocks := r.blocks, allocations := (s.allocations + 1) % TWO32)
  {
  }

  lemma FreeCounts(s: State, ptr: nat)
    requires Sound(s) && IsLive(s.blocks, ptr)
    ensures Free(s, ptr) == s.(blocks := Free(s, ptr).blocks, frees := (s.frees + 1) % TWO32)
  {
  }

  /** An allocation elsewhere does not bring a freed block to life. */
  lemma StillDead(s: State, b: Block, n: nat, r: State, p: nat)
    requires Sound(s) && b in s.blocks && b.free && Allocates(s, n, r, p) && p != NULL && p != b.addr + HDR
    ensures forall c :: c in Live(r.blocks) ==> c.addr != b.addr
  {
    hide GapAt;
    var k :| 0 <= k < |s.blocks| && s.blocks[k] == b;
    LiveByAddress(s.blocks, HEAP_START, HEAP_END, k);
  }

  // ---------------------------------------------------------------- statistics

  ghost function TotalSize(live: set<Block>): nat {
    if live == {} then 0
    else
      var b :| b in live;
      b.size + TotalSize(live - {b})
  }

  /** The total does not depend on the order of summation. */
  lemma {:induction false} TotalWithout(live: set<Block>, b: Block)
    requires b in live
    ensures TotalSize(live) == b.size + TotalSize(live - {b})
    decreases |live|
  {
    var c :| c in live && TotalSize(live) == c.size + TotalSize(live - {c});
    if c != b {
      TotalWithout(live - {c}, b);
      TotalWithout(live - {b}, c);
      assert live - {c} - {b} == live - {b} - {c};
    }
  }

  lemma {:induction false} UsedIsTotal(bs: seq<Block>, lo: nat, hi: nat)
    requires Tiles(bs, lo, hi)
    ensures SumSizes(bs, false) == TotalSize(Live(bs))
  {
    if bs == [] {
      assert Live(bs) == {};
    } else {
      LiveTail(bs, lo, hi);
      UsedIsTotal(bs[1..], bs[0].End(), hi);
      if bs[0].free {
        assert Live(bs[1..]) == Live(bs);
      } else {
        ListedLive(bs, 0);
        TotalWithout(Live(bs), bs[0]);
      }
    }
  }

  /** The statistics that heap_get_stats reports balance, and agree with the live blocks. */
  lemma StatsBalance(s: State)
    requires Sound(s)
    ensures var stats := Heap.StatsOf(s);
      && stats.heapStart == 0x30_0000 && stats.heapEnd == 0x50_0000 && stats.totalSize == 0x20_0000
      && stats.usedSize + stats.freeSize + 29 * stats.blockCount == stats.totalSize
      && stats.usedSize == TotalSize(Live(s.blocks))
      && stats.usedBlockCount + stats.freeBlockCount == stats.blockCount
      && stats.usedBlockCount == |Live(s.blocks)| == (stats.allocationCount - stats.freeCount) % TWO32
  {
    hide Live, Tiles, SumSizes, CountBlocks, NoAdjacentFree;
    SoundAccounting(s);
    UsedIsTotal(s.blocks, HEAP_START, HEAP_END);
  }
}
