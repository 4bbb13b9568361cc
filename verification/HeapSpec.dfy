/** What allocating and freeing mean on a block list, and why the result is canonical. */
module HeapSpec {
  import opened BlockList

  // ---------------------------------------------------------------- searching

  /** The index of the block at address `p`, or |bs| when there is none. */
  function Find(bs: seq<Block>, p: nat): (i: nat)
    ensures i <= |bs|
    ensures i < |bs| ==> bs[i].addr == p
    ensures forall k :: 0 <= k < i ==> bs[k].addr != p
  {
    if bs == [] || bs[0].addr == p then 0 else 1 + Find(bs[1..], p)
  }

  predicate Fits(b: Block, n: nat) {
    b.free && b.size >= n
  }

  /** The index of the first free block of at least `n` bytes, or |bs| when there is none. */
  function FirstFit(bs: seq<Block>, n: nat): (i: nat)
    ensures i <= |bs|
    ensures i < |bs| ==> Fits(bs[i], n)
    ensures forall k :: 0 <= k < i ==> !Fits(bs[k], n)
  {
    if bs == [] || Fits(bs[0], n) then 0 else 1 + FirstFit(bs[1..], n)
  }

  /** Find is the only index at which a block of a tiling can have that address. */
  lemma FindUnique(bs: seq<Block>, lo: nat, hi: nat, i: nat)
    requires Tiles(bs, lo, hi) && i < |bs|
    ensures Find(bs, bs[i].addr) == i
  {
    TilesOrdered(bs, lo, hi);
  }

  // ---------------------------------------------------------------- allocating

  /** Block `i` cut to `n` bytes when the rest is worth a block of its own. */
  function Split(bs: seq<Block>, i: nat, n: nat): (r: seq<Block>)
    requires i < |bs| && n <= bs[i].size
    ensures |bs| <= |r| <= |bs| + 1
    ensures r[i].addr == bs[i].addr && r[i].free == bs[i].free
    ensures n <= r[i].size && r[i].size <= bs[i].size
  {
    var b := bs[i];
    if b.size < n + HDR + MIN_PAYLOAD then bs
    else bs[..i] + [Block(b.addr, n, b.free), Block(b.addr + HDR + n, b.size - n - HDR, true)] + bs[i + 1..]
  }

  function Taken(bs: seq<Block>, i: nat): (r: seq<Block>)
    requires i < |bs|
  {
    bs[i := bs[i].(free := false)]
  }

  /** The list after a successful allocation of `n` bytes. */
  function Allocated(bs: seq<Block>, n: nat): (r: seq<Block>)
    requires FirstFit(bs, n) < |bs|
  {
    Taken(Split(bs, FirstFit(bs, n), n), FirstFit(bs, n))
  }

  /** The block a successful allocation of `n` bytes hands out. */
  function Granted(bs: seq<Block>, n: nat): (b: Block)
    requires FirstFit(bs, n) < |bs|
    ensures b.addr == bs[FirstFit(bs, n)].addr && !b.free
    ensures n <= b.size < n + HDR + MIN_PAYLOAD
  {
    Allocated(bs, n)[FirstFit(bs, n)]
  }

  lemma TilesUpdate(bs: seq<Block>, lo: nat, hi: nat, i: nat, free: bool)
    requires Tiles(bs, lo, hi) && i < |bs|
    ensures Tiles(bs[i := bs[i].(free := free)], lo, hi)
  {
    TilesAdjacent(bs, lo, hi, i);
    var mid := [bs[i].(free := free)];
    assert Tiles(mid[1..], mid[0].End(), bs[i].End());
    TilesReplace(bs, lo, hi, i, i + 1, mid);
    assert bs[i := bs[i].(free := free)] == bs[..i] + mid + bs[i + 1..];
  }

  lemma SplitTiles(bs: seq<Block>, i: nat, n: nat)
    requires WellFormed(bs) && i < |bs| && n <= bs[i].size
    ensures WellFormed(Split(bs, i, n))
  {
    var b := bs[i];
    if b.size >= n + HDR + MIN_PAYLOAD {
      TilesAdjacent(bs, HEAP_START, HEAP_END, i);
      var rest := Block(b.addr + HDR + n, b.size - n - HDR, true);
      var mid := [Block(b.addr, n, b.free), rest];
      assert mid[1..] == [rest] && [rest][1..] == [];
      TilesReplace(bs, HEAP_START, HEAP_END, i, i + 1, mid);
    }
  }

  lemma AllocatedCanonical(bs: seq<Block>, n: nat)
    requires Canonical(bs) && FirstFit(bs, n) < |bs|
    ensures Canonical(Allocated(bs, n))
  {
    var i := FirstFit(bs, n);
    SplitTiles(bs, i, n);
    TilesUpdate(Split(bs, i, n), HEAP_START, HEAP_END, i, false);
  }

  lemma LiveConcat(a: seq<Block>, b: seq<Block>)
    ensures Live(a + b) == Live(a) + Live(b)
  {
  }

  /** Replacing blocks i..j exchanges their live blocks for those of the replacement. */
  lemma LiveReplace(bs: seq<Block>, i: nat, j: nat, mid: seq<Block>)
    requires i <= j <= |bs|
    ensures Live(bs) == Live(bs[..i]) + Live(bs[i..j]) + Live(bs[j..])
    ensures Live(bs[..i] + mid + bs[j..]) == Live(bs[..i]) + Live(mid) + Live(bs[j..])
  {
    assert bs == bs[..i] + bs[i..j] + bs[j..];
    LiveConcat(bs[..i], bs[i..j]);
    LiveConcat(bs[..i] + bs[i..j], bs[j..]);
    LiveConcat(bs[..i], mid);
    LiveConcat(bs[..i] + mid, bs[j..]);
  }

  /** A live block is known by its address. */
  lemma LiveByAddress(bs: seq<Block>, lo: nat, hi: nat, i: nat)
    requires Tiles(bs, lo, hi) && i < |bs|
    ensures forall b :: b in Live(bs) && b.addr == bs[i].addr ==> b == bs[i]
    ensures forall b :: b in Live(bs[..i]) || b in Live(bs[i + 1..]) ==> b.addr != bs[i].addr
  {
    TilesOrdered(bs, lo, hi);
  }

  /** Block `i` is exchanged for the granted block and, when it was split, the free rest. */
  lemma AllocatedShape(bs: seq<Block>, n: nat, i: nat)
    requires i == FirstFit(bs, n) < |bs|
    ensures var r := Allocated(bs, n); var rest := if |r| == |bs| then [] else [r[i + 1]];
      && r == bs[..i] + ([Granted(bs, n)] + rest) + bs[i + 1..]
      && Live(rest) == {}
  {
  }

  lemma GrantedIsNew(bs: seq<Block>, n: nat)
    requires Canonical(bs) && FirstFit(bs, n) < |bs|
    ensures Granted(bs, n) !in Live(bs)
  {
    LiveByAddress(bs, HEAP_START, HEAP_END, FirstFit(bs, n));
  }

  lemma LiveExchange(bs: seq<Block>, i: nat, g: Block, rest: seq<Block>)
    requires i < |bs| && bs[i].free && !g.free && Live(rest) == {}
    ensures Live(bs[..i] + ([g] + rest) + bs[i + 1..]) == Live(bs) + {g}
  {
    LiveReplace(bs, i, i + 1, [g] + rest);
    LiveConcat([g], rest);
    assert Live([g]) == {g};
    assert Live(bs[i..i + 1]) == {};
  }

  /** Allocation adds the granted block to the live ones and changes nothing else. */
  lemma AllocatedLive(bs: seq<Block>, n: nat)
    requires Canonical(bs) && FirstFit(bs, n) < |bs|
    ensures Granted(bs, n) !in Live(bs)
    ensures Live(Allocated(bs, n)) == Live(bs) + {Granted(bs, n)}
  {
    var i := FirstFit(bs, n);
    GrantedIsNew(bs, n);
    AllocatedShape(bs, n, i);
    LiveExchange(bs, i, Granted(bs, n), if |Allocated(bs, n)| == |bs| then [] else [Allocated(bs, n)[i + 1]]);
  }

  // ---------------------------------------------------------------- coalescing

  /** The bytes that `bs` covers, headers included. */
  function Extent(bs: seq<Block>): (e: nat)
    ensures bs != [] ==> e >= HDR
  {
    if bs == [] then 0 else HDR + bs[0].size + Extent(bs[1..])
  }

  lemma {:induction false} ExtentConcat(a: seq<Block>, b: seq<Block>)
    ensures Extent(a + b) == Extent(a) + Extent(b)
  {
    if a == [] {
      assert a + b == b;
    } else {
      ExtentConcat(a[1..], b);
      assert (a + b)[1..] == a[1..] + b;
    }
  }

  lemma {:induction false} TilesExtent(bs: seq<Block>, lo: nat, hi: nat)
    requires Tiles(bs, lo, hi)
    ensures lo + Extent(bs) == hi
  {
    if bs != [] {
      TilesExtent(bs[1..], bs[0].End(), hi);
    }
  }

  ghost predicate AllFree(bs: seq<Block>, lo: nat, hi: nat)
    requires hi <= |bs|
  {
    forall k :: lo <= k < hi ==> bs[k].free
  }

  /** The first index of the maximal run of free blocks that ends just before or at `i`. */
  function RunStart(bs: seq<Block>, i: nat): (lo: nat)
    requires i < |bs|
    ensures lo <= i && AllFree(bs, lo, i)
    ensures lo > 0 ==> !bs[lo - 1].free
  {
    if i > 0 && bs[i - 1].free then RunStart(bs, i - 1) else i
  }

  /** One past the last index of the maximal run of free blocks that starts at `i`. */
  function RunEnd(bs: seq<Block>, i: nat): (hi: nat)
    requires i <= |bs|
    ensures i <= hi <= |bs| && AllFree(bs, i, hi)
    ensures hi < |bs| ==> !bs[hi].free
    decreases |bs| - i
  {
    if i < |bs| && bs[i].free then RunEnd(bs, i + 1) else i
  }

  lemma {:induction false} RunStartUnique(bs: seq<Block>, i: nat, lo: nat)
    requires lo <= i < |bs| && AllFree(bs, lo, i) && (lo > 0 ==> !bs[lo - 1].free)
    ensures RunStart(bs, i) == lo
  {
  }

  lemma {:induction false} RunEndUnique(bs: seq<Block>, i: nat, hi: nat)
    requires i <= hi <= |bs| && AllFree(bs, i, hi) && (hi < |bs| ==> !bs[hi].free)
    ensures RunEnd(bs, i) == hi
  {
  }

  /** Blocks lo..hi replaced by one free block of the same extent. */
  function Merge(bs: seq<Block>, lo: nat, hi: nat): (r: seq<Block>)
    requires lo < hi <= |bs|
    ensures |r| == |bs| - (hi - lo) + 1
  {
    bs[..lo] + [Block(bs[lo].addr, Extent(bs[lo..hi]) - HDR, true)] + bs[hi..]
  }

  /** The maximal run of free blocks around `i` merged into one. */
  function Coalesced(bs: seq<Block>, i: nat): (r: seq<Block>)
    requires i < |bs| && bs[i].free
  {
    Merge(bs, RunStart(bs, i), RunEnd(bs, i))
  }

  lemma MergeTiles(bs: seq<Block>, lo: nat, hi: nat)
    requires WellFormed(bs) && lo < hi <= |bs|
    ensures WellFormed(Merge(bs, lo, hi))
  {
    TilesPrefix(bs, HEAP_START, HEAP_END, hi);
    TilesPrefix(bs[..hi], HEAP_START, Boundary(bs, hi, HEAP_END), lo);
    assert bs[..hi][lo..] == bs[lo..hi];
    TilesExtent(bs[lo..hi], bs[lo].addr, Boundary(bs, hi, HEAP_END));
    var b := Block(bs[lo].addr, Extent(bs[lo..hi]) - HDR, true);
    assert Tiles([b][1..], b.End(), b.End());
    TilesReplace(bs, HEAP_START, HEAP_END, lo, hi, [b]);
  }

  lemma MergeOne(bs: seq<Block>, i: nat)
    requires i < |bs| && bs[i].free
    ensures Merge(bs, i, i + 1) == bs
  {
    assert bs[i..i + 1] == [bs[i]] && [bs[i]][1..] == [];
    assert Extent([bs[i]]) == HDR + bs[i].size;
    assert Block(bs[i].addr, bs[i].size, true) == bs[i];
    assert bs == bs[..i] + [bs[i]] + bs[i + 1..];
  }

  /** One more free block absorbed: the step of the merging loop. */
  lemma MergeStep(bs: seq<Block>, i: nat, k: nat)
    requires i < k < |bs|
    ensures Merge(Merge(bs, i, k), i, i + 2) == Merge(bs, i, k + 1)
  {
    var cur := Merge(bs, i, k);
    assert cur[i..i + 2] == [cur[i], bs[k]];
    assert [cur[i], bs[k]][1..] == [bs[k]] && [bs[k]][1..] == [];
    assert bs[i..k + 1] == bs[i..k] + [bs[k]];
    ExtentConcat(bs[i..k], [bs[k]]);
  }

  /** The run around `i` seen from its predecessor, once what follows `i` has been merged into it. */
  lemma RunsAfterMerge(bs: seq<Block>, i: nat)
    requires 0 < i < |bs| && bs[i].free && bs[i - 1].free
    ensures var cur := Merge(bs, i, RunEnd(bs, i));
      cur[i - 1].free && RunStart(cur, i - 1) == RunStart(bs, i) && RunEnd(cur, i - 1) == i + 1
  {
    var cur := Merge(bs, i, RunEnd(bs, i));
    MergeRest(bs, i, RunEnd(bs, i));
    RunStartUnique(cur, i - 1, RunStart(bs, i));
    assert cur[i].free;
    RunEndUnique(cur, i - 1, i + 1);
  }

  /** Merging forward and then continuing from the previous block merges the whole run. */
  lemma CoalesceFromPrevious(bs: seq<Block>, i: nat)
    requires 0 < i < |bs| && bs[i].free && bs[i - 1].free
    ensures var cur := Merge(bs, i, RunEnd(bs, i));
      cur[i - 1].free && Coalesced(cur, i - 1) == Coalesced(bs, i)
  {
    RunsAfterMerge(bs, i);
    MergeTwice(bs, RunStart(bs, i), i, RunEnd(bs, i));
  }

  /** Where the merging loop leaves off, the rest of the run lies before `i`, if anywhere. */
  lemma CoalesceForward(bs: seq<Block>, i: nat, k: nat)
    requires i < k <= |bs| && AllFree(bs, i, k) && (k < |bs| ==> !bs[k].free)
    ensures var cur := Merge(bs, i, k);
      if i > 0 && bs[i - 1].free
      then i <= |cur| && cur[i - 1].free && Coalesced(cur, i - 1) == Coalesced(bs, i)
      else cur == Coalesced(bs, i)
  {
    RunEndUnique(bs, i, k);
    if i > 0 && bs[i - 1].free {
      CoalesceFromPrevious(bs, i);
    }
  }

  lemma MergeRest(bs: seq<Block>, lo: nat, hi: nat)
    requires lo < hi <= |bs|
    ensures Merge(bs, lo, hi)[..lo] == bs[..lo] && Merge(bs, lo, hi)[lo + 1..] == bs[hi..]
    ensures forall k :: 0 <= k < lo ==> Merge(bs, lo, hi)[k] == bs[k]
    ensures hi < |bs| ==> Merge(bs, lo, hi)[lo + 1] == bs[hi]
  {
  }

  lemma MergeTwice(bs: seq<Block>, lo: nat, i: nat, hi: nat)
    requires lo < i < hi <= |bs|
    ensures Merge(Merge(bs, i, hi), lo, i + 1) == Merge(bs, lo, hi)
  {
    var cur := Merge(bs, i, hi);
    MergeRest(bs, i, hi);
    assert cur[lo..i + 1] == bs[lo..i] + [cur[i]];
    assert bs[lo..hi] == bs[lo..i] + bs[i..hi];
    ExtentConcat(bs[lo..i], [cur[i]]);
    ExtentConcat(bs[lo..i], bs[i..hi]);
    assert [cur[i]][1..] == [];
    assert cur[..lo] == bs[..lo];
  }

  // ---------------------------------------------------------------- freeing

  /** The list after freeing the block at address `p`; unchanged unless that block is live. */
  function Freed(bs: seq<Block>, p: nat): (r: seq<Block>) {
    var i := Find(bs, p);
    if i < |bs| && !bs[i].free then Coalesced(bs[i := bs[i].(free := true)], i) else bs
  }

  /** Coalescing around `i` restores the canonical form when only `i` broke it. */
  lemma CoalescedCanonical(bs: seq<Block>, i: nat)
    requires WellFormed(bs) && i < |bs| && bs[i].free
    requires forall j, k :: 0 <= j && k == j + 1 && k < |bs| && j != i && k != i ==> !(bs[j].free && bs[k].free)
    ensures Canonical(Coalesced(bs, i))
  {
    MergeTiles(bs, RunStart(bs, i), RunEnd(bs, i));
  }

  /** Merging free blocks leaves the live ones alone. */
  lemma MergeLive(bs: seq<Block>, lo: nat, hi: nat)
    requires lo < hi <= |bs| && AllFree(bs, lo, hi)
    ensures Live(Merge(bs, lo, hi)) == Live(bs)
  {
    var mid := [Merge(bs, lo, hi)[lo]];
    assert Merge(bs, lo, hi) == bs[..lo] + mid + bs[hi..];
    LiveReplace(bs, lo, hi, mid);
    assert Live(bs[lo..hi]) == {};
    assert Live(mid) == {};
  }

  lemma CoalescedLive(bs: seq<Block>, i: nat)
    requires i < |bs| && bs[i].free
    ensures Live(Coalesced(bs, i)) == Live(bs)
  {
    MergeLive(bs, RunStart(bs, i), RunEnd(bs, i));
  }

  lemma FreedCanonical(bs: seq<Block>, p: nat)
    requires Canonical(bs)
    ensures Canonical(Freed(bs, p))
  {
    var i := Find(bs, p);
    if i < |bs| && !bs[i].free {
      TilesUpdate(bs, HEAP_START, HEAP_END, i, true);
      CoalescedCanonical(bs[i := bs[i].(free := true)], i);
    }
  }

  lemma ReleasedLive(bs: seq<Block>, i: nat)
    requires WellFormed(bs) && i < |bs| && !bs[i].free
    ensures Live(bs[i := bs[i].(free := true)]) == Live(bs) - {bs[i]}
  {
    var f := bs[i].(free := true);
    LiveByAddress(bs, HEAP_START, HEAP_END, i);
    assert bs[i := f] == bs[..i] + [f] + bs[i + 1..];
    LiveReplace(bs, i, i + 1, [f]);
    assert Live([f]) == {} && Live(bs[i..i + 1]) == {bs[i]};
  }

  /** Freeing removes the live block at `p`, if there is one, and no other. */
  lemma FreedLive(bs: seq<Block>, p: nat)
    requires Canonical(bs)
    ensures Live(Freed(bs, p)) == set b | b in Live(bs) && b.addr != p
  {
    var i := Find(bs, p);
    if i < |bs| {
      LiveByAddress(bs, HEAP_START, HEAP_END, i);
      if !bs[i].free {
        ReleasedLive(bs, i);
        CoalescedLive(bs[i := bs[i].(free := true)], i);
      }
    }
  }

  // ---------------------------------------------------------------- accounting

  function SumSizes(bs: seq<Block>, free: bool): nat {
    if bs == [] then 0 else (if bs[0].free == free then bs[0].size else 0) + SumSizes(bs[1..], free)
  }

  function CountBlocks(bs: seq<Block>, free: bool): nat {
    if bs == [] then 0 else (if bs[0].free == free then 1 else 0) + CountBlocks(bs[1..], free)
  }

  lemma {:induction false} CountsAppend(bs: seq<Block>, k: nat, free: bool)
    requires k < |bs|
    ensures SumSizes(bs[..k + 1], free) == SumSizes(bs[..k], free) + (if bs[k].free == free then bs[k].size else 0)
    ensures CountBlocks(bs[..k + 1], free) == CountBlocks(bs[..k], free) + (if bs[k].free == free then 1 else 0)
  {
    if k == 0 {
      assert bs[..1] == [bs[0]] && [bs[0]][1..] == [] && bs[..0] == [];
    } else {
      CountsAppend(bs[1..], k - 1, free);
      assert bs[..k + 1][1..] == bs[1..][..k] && bs[..k][1..] == bs[1..][..k - 1];
    }
  }

  /** Every byte of the extent is a header byte, a used byte or a free byte. */
  lemma {:induction false} SizesBalance(bs: seq<Block>)
    ensures SumSizes(bs, true) + SumSizes(bs, false) + HDR * |bs| == Extent(bs)
    ensures CountBlocks(bs, true) + CountBlocks(bs, false) == |bs|
  {
    if bs != [] {
      SizesBalance(bs[1..]);
    }
  }

  lemma {:induction false} CountLive(bs: seq<Block>, lo: nat, hi: nat)
    requires Tiles(bs, lo, hi)
    ensures CountBlocks(bs, false) == |Live(bs)|
  {
    if bs != [] {
      LiveTail(bs, lo, hi);
      CountLive(bs[1..], bs[0].End(), hi);
      assert !bs[0].free ==> bs[0] in Live(bs);
    }
  }

  /** Every block but the granted one stays in the list as it was. */
  lemma AllocatedKeeps(bs: seq<Block>, n: nat, i: nat) returns (j: nat)
    requires FirstFit(bs, n) < |bs| && i < |bs| && i != FirstFit(bs, n)
    ensures j < |Allocated(bs, n)| && Allocated(bs, n)[j] == bs[i]
  {
    j := if i < FirstFit(bs, n) then i else i + |Allocated(bs, n)| - |bs|;
  }
}
