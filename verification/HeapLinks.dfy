/** When the headers in memory are the doubly linked list of a block list, and which writes keep that. */
module HeapLinks {
  import opened LittleEndian
  import opened BlockList
  import opened HeapSpec
  import opened HeapMemory

  function NextOf(bs: seq<Block>, i: nat): nat {
    if i + 1 < |bs| then bs[i + 1].addr else NULL
  }

  function PrevOf(bs: seq<Block>, i: nat): nat
    requires i <= |bs|
  {
    if i == 0 then NULL else bs[i - 1].addr
  }

  function FreeByte(free: bool): byte {
    if free then 1 else 0
  }

  /** The header that block `i` must have. */
  function Expected(bs: seq<Block>, i: nat): Header
    requires i < |bs|
  {
    Header(HEAP_MAGIC, bs[i].size, FreeByte(bs[i].free), NextOf(bs, i), PrevOf(bs, i))
  }

  ghost predicate HeaderInPlace(m: seq<byte>, bs: seq<Block>, i: nat)
    requires |m| == MEM_SIZE && i < |bs|
  {
    InHeap(bs[i].addr) && Load(m, bs[i].addr) == Expected(bs, i)
  }

  /** The list threaded through memory is `bs`: prev inverts next, and list order is address order. */
  ghost predicate Linked(m: seq<byte>, bs: seq<Block>)
    requires |m| == MEM_SIZE
  {
    && WellFormed(bs)
    && forall i {:trigger HeaderInPlace(m, bs, i)} :: 0 <= i < |bs| ==> HeaderInPlace(m, bs, i)
  }

  /** `m'` differs from `m` at most in the headers at the addresses `ps`. */
  ghost predicate Touched(m: seq<byte>, m': seq<byte>, ps: set<nat>)
    requires |m| == |m'| == MEM_SIZE
  {
    && (forall q: nat :: InHeap(q) && (forall p :: p in ps ==> Apart(p, q)) ==> Load(m', q) == Load(m, q))
    && (forall k :: 0 <= k < MEM_SIZE && (forall p :: p in ps ==> !(p <= HEAP_START + k < p + HDR)) ==> m'[k] == m[k])
  }

  lemma TouchedOne(m: seq<byte>, m': seq<byte>, p: nat)
    requires |m| == |m'| == MEM_SIZE && InHeap(p) && OnlyHeader(m, m', p)
    ensures Touched(m, m', {p})
  {
  }

  lemma TouchedMore(m: seq<byte>, m1: seq<byte>, m': seq<byte>, ps: set<nat>, p: nat)
    requires |m| == |m1| == |m'| == MEM_SIZE && InHeap(p)
    requires Touched(m, m1, ps) && OnlyHeader(m1, m', p)
    ensures Touched(m, m', ps + {p})
  {
    forall q: nat | InHeap(q) && (forall r :: r in ps + {p} ==> Apart(r, q)) ensures Load(m', q) == Load(m, q) {
      assert p in ps + {p};
      assert forall r :: r in ps ==> r in ps + {p};
    }
    forall k | 0 <= k < MEM_SIZE && (forall r :: r in ps + {p} ==> !(r <= HEAP_START + k < r + HDR))
      ensures m'[k] == m[k] {
      assert p in ps + {p};
      assert forall r :: r in ps ==> r in ps + {p};
    }
  }

  lemma BlocksApart(bs: seq<Block>, i: nat, j: nat)
    requires WellFormed(bs) && i < |bs| && j < |bs| && i != j
    ensures Apart(bs[i].addr, bs[j].addr)
    ensures InHeap(bs[i].addr) && bs[i].End() <= HEAP_END
  {
    TilesOrdered(bs, HEAP_START, HEAP_END);
  }

  lemma BlockInHeap(bs: seq<Block>, i: nat)
    requires WellFormed(bs) && i < |bs|
    ensures InHeap(bs[i].addr) && bs[i].End() <= HEAP_END
  {
    TilesOrdered(bs, HEAP_START, HEAP_END);
  }

  // ---------------------------------------------------------------- the writes of each operation

  /** Changing one header's is_free byte. */
  lemma LinkedFlag(m: seq<byte>, m': seq<byte>, bs: seq<Block>, i: nat, free: bool)
    requires |m| == |m'| == MEM_SIZE && Linked(m, bs) && i < |bs| && InHeap(bs[i].addr)
    requires OnlyHeader(m, m', bs[i].addr)
    requires Load(m', bs[i].addr) == Load(m, bs[i].addr).(free := FreeByte(free))
    ensures Linked(m', bs[i := bs[i].(free := free)])
  {
    hide Load, Tiles;
    var r := bs[i := bs[i].(free := free)];
    TilesUpdate(bs, HEAP_START, HEAP_END, i, free);
    forall k | 0 <= k < |r| ensures HeaderInPlace(m', r, k) {
      assert HeaderInPlace(m, bs, k);
      if k != i { BlocksApart(bs, i, k); }
    }
  }

  /** Writing bytes of one block's payload only. */
  lemma LinkedPayload(m: seq<byte>, m': seq<byte>, bs: seq<Block>, i: nat)
    requires |m| == |m'| == MEM_SIZE && Linked(m, bs) && i < |bs| && InHeap(bs[i].addr)
    requires SameBytes(m, m', 0, bs[i].addr + HDR - HEAP_START)
    requires SameBytes(m, m', bs[i].End() - HEAP_START, MEM_SIZE)
    ensures Linked(m', bs)
  {
    hide Load;
    forall k | 0 <= k < |bs| ensures HeaderInPlace(m', bs, k) {
      assert HeaderInPlace(m, bs, k);
      if k != i { BlocksApart(bs, i, k); }
      TilesOrdered(bs, HEAP_START, HEAP_END);
      LoadDependsOnHeader(m, m', bs[k].addr);
    }
  }

  /** `r` is `bs` with block `i` cut in two: the elements, spelled out. */
  ghost predicate CutInTwo(bs: seq<Block>, i: nat, n: nat, q: nat, r: seq<Block>)
    requires i < |bs| && bs[i].size >= n + HDR
  {
    && |r| == |bs| + 1
    && (forall k :: 0 <= k < i ==> r[k] == bs[k])
    && r[i] == Block(bs[i].addr, n, bs[i].free)
    && r[i + 1] == Block(q, bs[i].size - n - HDR, true)
    && (forall k :: i + 2 <= k < |r| ==> r[k] == bs[k - 1])
  }

  lemma SplitCutsInTwo(bs: seq<Block>, i: nat, n: nat, q: nat)
    requires i < |bs| && bs[i].size >= n + HDR + MIN_PAYLOAD && q == bs[i].addr + HDR + n
    ensures |Split(bs, i, n)| == |bs| + 1 && CutInTwo(bs, i, n, q, Split(bs, i, n))
  {
    ReplacedByTwo(bs, i, Block(bs[i].addr, n, bs[i].free), Block(q, bs[i].size - n - HDR, true), Split(bs, i, n));
  }

  lemma ReplacedByTwo(bs: seq<Block>, i: nat, a: Block, b: Block, r: seq<Block>)
    requires i < |bs| && r == bs[..i] + [a, b] + bs[i + 1..]
    ensures |r| == |bs| + 1 && r[i] == a && r[i + 1] == b
    ensures forall k :: 0 <= k < i ==> r[k] == bs[k]
    ensures forall k :: i + 2 <= k < |r| ==> r[k] == bs[k - 1]
  {
  }

  ghost function SplitWrites(bs: seq<Block>, i: nat, q: nat): set<nat>
    requires i < |bs|
  {
    {bs[i].addr, q} + if i + 1 < |bs| then {bs[i + 1].addr} else {}
  }

  /** The five fields of the new header, and the three that refer to it. */
  lemma LinkedSplit(m: seq<byte>, m': seq<byte>, bs: seq<Block>, i: nat, n: nat, q: nat)
    requires |m| == |m'| == MEM_SIZE && Linked(m, bs) && i < |bs| && InHeap(bs[i].addr)
    requires bs[i].free && bs[i].size >= n + HDR + MIN_PAYLOAD
    requires q == bs[i].addr + HDR + n && InHeap(q)
    requires Load(m', bs[i].addr) == Load(m, bs[i].addr).(size := n, next := q)
    requires Load(m', q) == Header(HEAP_MAGIC, bs[i].size - n - HDR, 1, NextOf(bs, i), bs[i].addr)
    requires i + 1 < |bs| ==> InHeap(bs[i + 1].addr) && Load(m', bs[i + 1].addr) == Load(m, bs[i + 1].addr).(prev := q)
    requires Touched(m, m', SplitWrites(bs, i, q))
    ensures Linked(m', Split(bs, i, n))
  {
    hide Load, Touched, CutInTwo, HeaderInPlace, Tiles, Split;
    var r := Split(bs, i, n);
    SplitTiles(bs, i, n);
    SplitCutsInTwo(bs, i, n, q);
    assert |r| == |bs| + 1;
    forall k | 0 <= k < |r| ensures HeaderInPlace(m', r, k) {
      if k < i || k > i + 2 {
        SplitFrame(m, m', bs, i, n, q, r, k);
      } else {
        SplitNear(m, m', bs, i, n, q, r, k);
      }
    }
  }

  lemma SplitFrame(m: seq<byte>, m': seq<byte>, bs: seq<Block>, i: nat, n: nat, q: nat, r: seq<Block>, k: nat)
    requires |m| == |m'| == MEM_SIZE && Linked(m, bs) && i < |bs|
    requires bs[i].size >= n + HDR + MIN_PAYLOAD && q == bs[i].addr + HDR + n && CutInTwo(bs, i, n, q, r)
    requires k < |r| && (k < i || k > i + 2)
    requires Touched(m, m', SplitWrites(bs, i, q))
    ensures HeaderInPlace(m', r, k)
  {
    hide Load, Tiles;
    var j := if k < i then k else k - 1;
    assert HeaderInPlace(m, bs, j);
    assert Load(m', bs[j].addr) == Load(m, bs[j].addr) by {
      TilesOrdered(bs, HEAP_START, HEAP_END);
    }
    assert Expected(r, k) == Expected(bs, j);
  }

  lemma SplitNear(m: seq<byte>, m': seq<byte>, bs: seq<Block>, i: nat, n: nat, q: nat, r: seq<Block>, k: nat)
    requires |m| == |m'| == MEM_SIZE && Linked(m, bs) && i < |bs| && InHeap(bs[i].addr)
    requires bs[i].free && bs[i].size >= n + HDR + MIN_PAYLOAD && CutInTwo(bs, i, n, q, r)
    requires InHeap(q) && i <= k <= i + 2 && k < |r|
    requires Load(m', bs[i].addr) == Load(m, bs[i].addr).(size := n, next := q)
    requires Load(m', q) == Header(HEAP_MAGIC, bs[i].size - n - HDR, 1, NextOf(bs, i), bs[i].addr)
    requires i + 1 < |bs| ==> InHeap(bs[i + 1].addr) && Load(m', bs[i + 1].addr) == Load(m, bs[i + 1].addr).(prev := q)
    ensures HeaderInPlace(m', r, k)
  {
    hide Load, Tiles;
    assert HeaderInPlace(m, bs, i);
    if i + 1 < |bs| {
      assert HeaderInPlace(m, bs, i + 1);
    }
  }

  /** `r` is `bs` with blocks `i` and `i + 1` made one: the elements, spelled out. */
  ghost predicate MadeOne(bs: seq<Block>, i: nat, r: seq<Block>)
    requires i + 1 < |bs|
  {
    && |r| == |bs| - 1
    && (forall k :: 0 <= k < i ==> r[k] == bs[k])
    && r[i] == Block(bs[i].addr, bs[i].size + HDR + bs[i + 1].size, true)
    && (forall k :: i + 1 <= k < |r| ==> r[k] == bs[k + 1])
  }

  ghost function MergeWrites(bs: seq<Block>, i: nat): set<nat>
    requires i + 1 < |bs|
  {
    {bs[i].addr, bs[i + 1].addr} + if i + 2 < |bs| then {bs[i + 2].addr} else {}
  }

  lemma MergeMakesOne(bs: seq<Block>, i: nat)
    requires i + 1 < |bs|
    ensures MadeOne(bs, i, Merge(bs, i, i + 2))
  {
    var two, one := bs[i..i + 2], [bs[i + 1]];
    assert two[1..] == one && one[1..] == [];
    assert Extent(one) == HDR + bs[i + 1].size;
    assert Extent(two) == HDR + bs[i].size + Extent(one);
  }

  /** One step of merging: the block's size and next, and the back pointer of what then follows. */
  lemma LinkedMerge(m: seq<byte>, m': seq<byte>, bs: seq<Block>, i: nat)
    requires |m| == |m'| == MEM_SIZE && Linked(m, bs) && i + 1 < |bs| && InHeap(bs[i].addr)
    requires bs[i].free
    requires Load(m', bs[i].addr)
      == Load(m, bs[i].addr).(size := bs[i].size + HDR + bs[i + 1].size, next := NextOf(bs, i + 1))
    requires i + 2 < |bs| ==>
      InHeap(bs[i + 2].addr) && Load(m', bs[i + 2].addr) == Load(m, bs[i + 2].addr).(prev := bs[i].addr)
    requires Touched(m, m', MergeWrites(bs, i))
    ensures Linked(m', Merge(bs, i, i + 2))
  {
    hide Load, Touched, HeaderInPlace, Tiles, Merge;
    var r := Merge(bs, i, i + 2);
    MergeTiles(bs, i, i + 2);
    MergeMakesOne(bs, i);
    forall k | 0 <= k < |r| ensures HeaderInPlace(m', r, k) {
      if k < i || k > i + 1 {
        MergeFrame(m, m', bs, i, r, k);
      } else {
        MergeNear(m, m', bs, i, r, k);
      }
    }
  }

  lemma MergeFrame(m: seq<byte>, m': seq<byte>, bs: seq<Block>, i: nat, r: seq<Block>, k: nat)
    requires |m| == |m'| == MEM_SIZE && Linked(m, bs) && i + 1 < |bs| && MadeOne(bs, i, r)
    requires k < |r| && (k < i || k > i + 1)
    requires Touched(m, m', MergeWrites(bs, i))
    ensures HeaderInPlace(m', r, k)
  {
    hide Load, Tiles;
    var j := if k < i then k else k + 1;
    assert HeaderInPlace(m, bs, j);
    assert Load(m', bs[j].addr) == Load(m, bs[j].addr) by {
      TilesOrdered(bs, HEAP_START, HEAP_END);
    }
    assert Expected(r, k) == Expected(bs, j);
  }

  lemma MergeNear(m: seq<byte>, m': seq<byte>, bs: seq<Block>, i: nat, r: seq<Block>, k: nat)
    requires |m| == |m'| == MEM_SIZE && Linked(m, bs) && i + 1 < |bs| && InHeap(bs[i].addr) && MadeOne(bs, i, r)
    requires bs[i].free && i <= k <= i + 1 && k < |r|
    requires Load(m', bs[i].addr)
      == Load(m, bs[i].addr).(size := bs[i].size + HDR + bs[i + 1].size, next := NextOf(bs, i + 1))
    requires i + 2 < |bs| ==>
      InHeap(bs[i + 2].addr) && Load(m', bs[i + 2].addr) == Load(m, bs[i + 2].addr).(prev := bs[i].addr)
    ensures HeaderInPlace(m', r, k)
  {
    hide Load, Tiles;
    assert HeaderInPlace(m, bs, i);
    if i + 2 < |bs| {
      assert HeaderInPlace(m, bs, i + 2);
    }
  }
}
