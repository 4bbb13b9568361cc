/** The kernel heap of kmalloc.c over one byte array: headers in band, payloads between them. */
module Heap {
  import opened BitOps
  import opened LittleEndian
  import opened BlockList
  import opened HeapSpec
  import opened HeapMemory
  import opened HeapLinks
  import HeapOps

  // ---------------------------------------------------------------- what operations keep

  /** The payload bytes of the blocks `live` are the same. */
  ghost predicate PayloadsKept(m: seq<byte>, m': seq<byte>, live: set<Block>)
    requires |m| == |m'| == MEM_SIZE
  {
    forall b :: b in live ==> SameBytes(m, m', b.addr + HDR - HEAP_START, b.End() - HEAP_START)
  }

  lemma KeptSame(m: seq<byte>, live: set<Block>)
    requires |m| == MEM_SIZE
    ensures PayloadsKept(m, m, live)
  {
  }

  lemma KeptThen(m: seq<byte>, m1: seq<byte>, m': seq<byte>, live: set<Block>)
    requires |m| == |m1| == |m'| == MEM_SIZE
    requires PayloadsKept(m, m1, live) && PayloadsKept(m1, m', live)
    ensures PayloadsKept(m, m', live)
  {
  }

  /** No payload byte spells the magic number: it stands at block addresses and nowhere else. */
  ghost predicate Unforged(m: seq<byte>, bs: seq<Block>)
    requires |m| == MEM_SIZE
  {
    forall k: nat :: k < HEAP_SIZE && MagicAt(m, k) ==> Find(bs, HEAP_START + k) < |bs|
  }

  lemma FindExists(bs: seq<Block>, p: nat, k: nat)
    requires k < |bs| && bs[k].addr == p
    ensures Find(bs, p) < |bs|
  {
  }

  /** The header at `p` overlaps no live payload. */
  ghost predicate ClearOf(p: nat, live: set<Block>) {
    forall b :: b in live ==> b.End() <= p || p + HDR <= b.addr + HDR
  }

  lemma TouchedKeeps(m: seq<byte>, m': seq<byte>, ps: set<nat>, live: set<Block>)
    requires |m| == |m'| == MEM_SIZE && Touched(m, m', ps)
    requires forall p :: p in ps ==> ClearOf(p, live)
    ensures PayloadsKept(m, m', live)
  {
    forall b, k | b in live && 0 <= k < |m| && b.addr + HDR - HEAP_START <= k < b.End() - HEAP_START
      ensures m'[k] == m[k] {
      assert forall p :: p in ps ==> ClearOf(p, live);
    }
  }

  /** The headers of listed blocks, and any header inside a free block, overlap no live payload. */
  lemma HeadersClear(bs: seq<Block>, i: nat, q: nat)
    requires WellFormed(bs) && i < |bs|
    requires q == bs[i].addr || (bs[i].free && bs[i].addr <= q && q + HDR <= bs[i].End())
    ensures ClearOf(q, Live(bs))
  {
    TilesOrdered(bs, HEAP_START, HEAP_END);
  }

  lemma UnforgedSplit(m: seq<byte>, m': seq<byte>, bs: seq<Block>, i: nat, n: nat)
    requires |m| == |m'| == MEM_SIZE && i < |bs| && bs[i].size >= n + HDR + MIN_PAYLOAD
    requires Unforged(m, bs) && NoNewMagic(m, m', bs[i].addr + HDR + n)
    ensures Unforged(m', Split(bs, i, n))
  {
    hide MagicAt, Tiles;
    var r := Split(bs, i, n);
    forall k: nat | k < HEAP_SIZE && MagicAt(m', k) ensures Find(r, HEAP_START + k) < |r| {
      if MagicAt(m, k) {
        var j := Find(bs, HEAP_START + k);
        FindExists(r, HEAP_START + k, if j <= i then j else j + 1);
      } else {
        FindExists(r, HEAP_START + k, i + 1);
      }
    }
  }

  lemma UnforgedMerge(m: seq<byte>, m': seq<byte>, bs: seq<Block>, i: nat)
    requires |m| == |m'| == MEM_SIZE && i + 1 < |bs| && InHeap(bs[i + 1].addr)
    requires Unforged(m, bs) && NoNewMagic(m, m', NULL) && !MagicAt(m', bs[i + 1].addr - HEAP_START)
    ensures Unforged(m', Merge(bs, i, i + 2))
  {
    var r := Merge(bs, i, i + 2);
    MergeMakesOne(bs, i);
    forall k: nat | k < HEAP_SIZE && MagicAt(m', k) ensures Find(r, HEAP_START + k) < |r| {
      var j := Find(bs, HEAP_START + k);
      FindExists(r, HEAP_START + k, if j <= i then j else j - 1);
    }
  }

  lemma UnforgedSame(m: seq<byte>, m': seq<byte>, bs: seq<Block>, r: seq<Block>)
    requires |m| == |m'| == MEM_SIZE && Unforged(m, bs) && NoNewMagic(m, m', NULL)
    requires |r| == |bs| && forall k :: 0 <= k < |bs| ==> r[k].addr == bs[k].addr
    ensures Unforged(m', r)
  {
    forall k: nat | k < HEAP_SIZE && MagicAt(m', k) ensures Find(r, HEAP_START + k) < |r| {
      FindExists(r, HEAP_START + k, Find(bs, HEAP_START + k));
    }
  }

  // ---------------------------------------------------------------- the heap

  class KernelHeap {
    /** The heap region, from HEAP_START on, and the HDR bytes that follow it. */
    const mem: array<byte>
    var heapHead: nat
    var heapInitialized: bool
    var totalAllocations: nat
    var totalFrees: nat
    var failedAllocations: nat
    /** The blocks that the headers in `mem` list. */
    ghost var blocks: seq<Block>

    ghost predicate Valid()
      reads this, mem
    {
      && mem.Length == MEM_SIZE
      && totalAllocations < TWO32 && totalFrees < TWO32 && failedAllocations < TWO32
      && if heapInitialized
         then heapHead == HEAP_START && Linked(mem[..], blocks) && NoAdjacentFree(blocks)
         else heapHead == NULL && blocks == []
    }

    ghost function State(): HeapOps.State
      reads this
    {
      HeapOps.State(heapInitialized, blocks, totalAllocations, totalFrees, failedAllocations)
    }

    constructor (memory: array<byte>)
      requires memory.Length == MEM_SIZE
      ensures Valid() && mem == memory && State() == HeapOps.State(false, [], 0, 0, 0)
    {
      mem := memory;
      heapHead := NULL;
      heapInitialized := false;
      totalAllocations, totalFrees, failedAllocations := 0, 0, 0;
      blocks := [];
    }

    // ---------------------------------------------------------------- stores

    /** The bytes `s` at distance `d` from address `p`. */
    method Store(p: nat, d: nat, s: seq<byte>)
      requires mem.Length == MEM_SIZE && InHeap(p) && d + |s| <= HDR
      modifies mem
      ensures Written(old(mem[..]), mem[..], p, d, s)
      ensures OnlyHeader(old(mem[..]), mem[..], p)
    {
      var o := p - HEAP_START + d;
      forall j | 0 <= j < |s| {
        mem[o + j] := s[j];
      }
      WrittenInHeader(old(mem[..]), mem[..], p, d, s);
    }

    method StoreMagic(p: nat, v: nat)
      requires mem.Length == MEM_SIZE && InHeap(p) && v in {0, HEAP_MAGIC}
      modifies mem
      ensures OnlyHeader(old(mem[..]), mem[..], p)
      ensures Load(mem[..], p) == old(Load(mem[..], p)).(magic := v)
      ensures NoNewMagic(old(mem[..]), mem[..], if v == 0 then NULL else p)
      ensures MagicAt(mem[..], p - HEAP_START) <==> v == HEAP_MAGIC
    {
      var s := EncodeWord(v, 4);
      Store(p, 0, s);
      LoadMagicWritten(old(mem[..]), mem[..], p, s);
      MagicBytes(mem[..], p);
      var o := p - HEAP_START;
      if v == 0 {
        assert forall k :: o <= k < o + 4 ==> mem[..][k] == s[k - o];
        HarmlessWrite(old(mem[..]), mem[..], o, o + 4);
      } else {
        MagicWrite(old(mem[..]), mem[..], p);
      }
    }

    method StoreSize(p: nat, v: nat)
      requires mem.Length == MEM_SIZE && InHeap(p) && v < SMALL && Load(mem[..], p).magic == HEAP_MAGIC
      modifies mem
      ensures OnlyHeader(old(mem[..]), mem[..], p)
      ensures Load(mem[..], p) == old(Load(mem[..], p)).(size := v)
      ensures NoNewMagic(old(mem[..]), mem[..], NULL)
    {
      var s := EncodeWord(v, 8);
      Store(p, 4, s);
      LoadSizeWritten(old(mem[..]), mem[..], p, s);
      MagicBytes(old(mem[..]), p);
      SmallWritten(old(mem[..]), mem[..], p, 4, s);
    }

    method StoreFree(p: nat, v: byte)
      requires mem.Length == MEM_SIZE && InHeap(p) && v <= 1
      modifies mem
      ensures OnlyHeader(old(mem[..]), mem[..], p)
      ensures Load(mem[..], p) == old(Load(mem[..], p)).(free := v)
      ensures NoNewMagic(old(mem[..]), mem[..], NULL)
    {
      var s: seq<byte> := [v];
      Store(p, 12, s);
      LoadFreeWritten(old(mem[..]), mem[..], p, s);
      var o := p - HEAP_START + 12;
      assert mem[..][o] == mem[..][o..o + 1][0];
      HarmlessWrite(old(mem[..]), mem[..], o, o + 1);
    }

    method StoreNext(p: nat, v: nat)
      requires mem.Length == MEM_SIZE && InHeap(p) && v < SMALL && Load(mem[..], p).free <= 1
      modifies mem
      ensures OnlyHeader(old(mem[..]), mem[..], p)
      ensures Load(mem[..], p) == old(Load(mem[..], p)).(next := v)
      ensures NoNewMagic(old(mem[..]), mem[..], NULL)
    {
      var s := EncodeWord(v, 8);
      Store(p, 13, s);
      LoadNextWritten(old(mem[..]), mem[..], p, s);
      SmallWritten(old(mem[..]), mem[..], p, 13, s);
    }

    method StorePrev(p: nat, v: nat)
      requires mem.Length == MEM_SIZE && InHeap(p) && v < SMALL && Load(mem[..], p).next < SMALL
      modifies mem
      ensures OnlyHeader(old(mem[..]), mem[..], p)
      ensures Load(mem[..], p) == old(Load(mem[..], p)).(prev := v)
      ensures NoNewMagic(old(mem[..]), mem[..], NULL)
    {
      var s := EncodeWord(v, 8);
      Store(p, 21, s);
      LoadPrevWritten(old(mem[..]), mem[..], p, s);
      SmallHighByte(Bytes(old(mem[..]), p, 13, 8), 7);
      SmallWritten(old(mem[..]), mem[..], p, 21, s);
    }

    /** The five stores that make a header, in the order of the source. */
    method StoreHeader(p: nat, size: nat, next: nat, prev: nat)
      requires mem.Length == MEM_SIZE && InHeap(p) && size < SMALL && next < SMALL && prev < SMALL
      modifies mem
      ensures OnlyHeader(old(mem[..]), mem[..], p)
      ensures Load(mem[..], p) == Header(HEAP_MAGIC, size, 1, next, prev)
      ensures NoNewMagic(old(mem[..]), mem[..], p)
    {
      StoreMagic(p, HEAP_MAGIC);
      StoreSize(p, size);
      StoreFree(p, 1);
      StoreNext(p, next);
      StorePrev(p, prev);
    }

    // ---------------------------------------------------------------- splitting and coalescing

    /** The stores that cut `block` in two. */
    method SplitStores(block: nat, newBlock: nat, size: nat)
      requires mem.Length == MEM_SIZE && InHeap(block) && InHeap(newBlock) && Apart(block, newBlock)
      requires newBlock == block + HDR + size
      requires var h := Load(mem[..], block);
        && h.magic == HEAP_MAGIC && h.free <= 1 && size + HDR <= h.size < SMALL && h.next < SMALL
        && (h.next != NULL ==> NeighbourOf(mem[..], h.next, {block, newBlock}))
      modifies mem
      ensures var h, q := old(Load(mem[..], block)), newBlock;
        && Load(mem[..], block) == h.(size := size, next := q)
        && Load(mem[..], q) == Header(HEAP_MAGIC, h.size - size - HDR, 1, h.next, block)
        && (h.next != NULL ==> Load(mem[..], h.next) == old(Load(mem[..], h.next)).(prev := q))
        && Touched(old(mem[..]), mem[..], {block, q} + if h.next != NULL then {h.next} else {})
        && NoNewMagic(old(mem[..]), mem[..], q)
    {
      hide OnlyHeader, Touched, NoNewMagic, Load;
      ghost var m0 := mem[..];
      var h := Load(mem[..], block);
      StoreHeader(newBlock, h.size - size - HDR, h.next, block);
      ghost var m1 := mem[..];
      ghost var ps := {newBlock};
      TouchedOne(m0, m1, newBlock);
      OtherHeader(m0, m1, newBlock, block);
      if h.next != NULL {
        OtherHeader(m0, m1, newBlock, h.next);
        StorePrev(h.next, newBlock);
        TouchedMore(m0, m1, mem[..], ps, h.next);
        NoNewMagicThen(m0, m1, mem[..], newBlock);
        OtherHeader(m1, mem[..], h.next, newBlock);
        OtherHeader(m1, mem[..], h.next, block);
        ps := ps + {h.next};
      }
      ghost var m2 := mem[..];
      StoreNext(block, newBlock);
      ghost var m3 := mem[..];
      TouchedMore(m0, m2, m3, ps, block);
      NoNewMagicThen(m0, m2, m3, newBlock);
      StoreSize(block, size);
      TouchedMore(m0, m3, mem[..], ps + {block}, block);
      NoNewMagicThen(m0, m3, mem[..], newBlock);
      OtherHeader(m2, m3, block, newBlock);
      OtherHeader(m3, mem[..], block, newBlock);
      if h.next != NULL {
        OtherHeader(m2, m3, block, h.next);
        OtherHeader(m3, mem[..], block, h.next);
      }
      assert ps + {block} + {block} == {block, newBlock} + if h.next != NULL then {h.next} else {};
    }

    method SplitBlock(block: nat, size: nat, ghost i: nat)
      requires mem.Length == MEM_SIZE && Linked(mem[..], blocks)
      requires block == NULL || (i < |blocks| && blocks[i].addr == block)
      requires block != NULL && size > blocks[i].size ==> size + HDR + MIN_PAYLOAD < TWO64
      modifies mem, this`blocks
      ensures Linked(mem[..], blocks)
      ensures blocks
        == if block != NULL && old(blocks)[i].free && size <= old(blocks)[i].size then Split(old(blocks), i, size)
           else old(blocks)
      ensures PayloadsKept(old(mem[..]), mem[..], Live(old(blocks)))
      ensures old(Unforged(mem[..], blocks)) ==> Unforged(mem[..], blocks)
    {
      hide Linked, Touched, NoNewMagic, Load, PayloadsKept, Unforged, WellFormed;
      ghost var m0 := mem[..];
      ghost var bs := blocks;
      KeptSame(m0, Live(bs));
      if block == NULL { return; }
      Surroundings(m0, bs, i);
      if Load(mem[..], block).free == 0 { return; }
      var minBlockSize := HDR + MIN_PAYLOAD;
      if Load(mem[..], block).size < size + minBlockSize { return; }
      var newBlock := block + HDR + size;
      SplitStores(block, newBlock, size);
      blocks := Split(bs, i, size);
      LinkedSplit(m0, mem[..], bs, i, size, newBlock);
      assert PayloadsKept(m0, mem[..], Live(bs)) by {
        HeadersClear(bs, i, block);
        HeadersClear(bs, i, newBlock);
        if i + 1 < |bs| { HeadersClear(bs, i + 1, bs[i + 1].addr); }
        TouchedKeeps(m0, mem[..], SplitWrites(bs, i, newBlock), Live(bs));
      }
      if Unforged(m0, bs) {
        UnforgedSplit(m0, mem[..], bs, i, size);
      }
    }

    /** The stores by which `block` absorbs `next`. */
    method AbsorbStores(block: nat, next: nat)
      requires mem.Length == MEM_SIZE && InHeap(block) && InHeap(next) && Apart(block, next)
      requires var h, x := Load(mem[..], block), Load(mem[..], next);
        && h.magic == HEAP_MAGIC && h.free <= 1 && h.size + HDR + x.size < SMALL && x.next < SMALL
        && block < SMALL && (x.next != NULL ==> NeighbourOf(mem[..], x.next, {block, next}))
      modifies mem
      ensures var h, x := old(Load(mem[..], block)), old(Load(mem[..], next));
        && Load(mem[..], block) == h.(size := h.size + HDR + x.size, next := x.next)
        && (x.next != NULL ==> Load(mem[..], x.next) == old(Load(mem[..], x.next)).(prev := block))
        && Touched(old(mem[..]), mem[..], {block, next} + if x.next != NULL then {x.next} else {})
        && NoNewMagic(old(mem[..]), mem[..], NULL) && !MagicAt(mem[..], next - HEAP_START)
    {
      hide OnlyHeader, Touched, NoNewMagic, Load;
      ghost var m0 := mem[..];
      var x := Load(mem[..], next);
      StoreSize(block, Load(mem[..], block).size + (HDR + x.size));
      ghost var m1 := mem[..];
      TouchedOne(m0, m1, block);
      OtherHeader(m0, m1, block, next);
      StoreNext(block, x.next);
      ghost var m2 := mem[..];
      TouchedMore(m0, m1, m2, {block}, block);
      NoNewMagicThen(m0, m1, m2, NULL);
      OtherHeader(m1, m2, block, next);
      ghost var ps := {block} + {block};
      if x.next != NULL {
        OtherHeader(m0, m1, block, x.next);
        OtherHeader(m1, m2, block, x.next);
        StorePrev(x.next, block);
        TouchedMore(m0, m2, mem[..], ps, x.next);
        NoNewMagicThen(m0, m2, mem[..], NULL);
        OtherHeader(m2, mem[..], x.next, block);
        ps := ps + {x.next};
      }
      ghost var m3 := mem[..];
      StoreMagic(next, 0);
      TouchedMore(m0, m3, mem[..], ps, next);
      NoNewMagicThen(m0, m3, mem[..], NULL);
      OtherHeader(m3, mem[..], next, block);
      if x.next != NULL {
        OtherHeader(m3, mem[..], next, x.next);
      }
      assert ps + {next} == {block, next} + if x.next != NULL then {x.next} else {};
    }

    /** The body of the merging loop: `block` absorbs the free block `next` after it. */
    method AbsorbNext(block: nat, next: nat, ghost i: nat)
      requires mem.Length == MEM_SIZE && Linked(mem[..], blocks)
      requires i + 1 < |blocks| && blocks[i].addr == block && blocks[i + 1].addr == next
      requires blocks[i].free && blocks[i + 1].free
      modifies mem, this`blocks
      ensures Linked(mem[..], blocks) && blocks == Merge(old(blocks), i, i + 2)
      ensures PayloadsKept(old(mem[..]), mem[..], Live(old(blocks)))
      ensures old(Unforged(mem[..], blocks)) ==> Unforged(mem[..], blocks)
    {
      hide Linked, Touched, NoNewMagic, Load, PayloadsKept, Unforged, WellFormed, Merge;
      ghost var m0 := mem[..];
      ghost var bs := blocks;
      Surroundings(m0, bs, i);
      Surroundings(m0, bs, i + 1);
      AbsorbStores(block, next);
      blocks := Merge(bs, i, i + 2);
      LinkedMerge(m0, mem[..], bs, i);
      assert PayloadsKept(m0, mem[..], Live(bs)) by {
        HeadersClear(bs, i, block);
        HeadersClear(bs, i + 1, next);
        if i + 2 < |bs| { HeadersClear(bs, i + 2, bs[i + 2].addr); }
        TouchedKeeps(m0, mem[..], MergeWrites(bs, i), Live(bs));
      }
      if Unforged(m0, bs) {
        UnforgedMerge(m0, mem[..], bs, i);
      }
    }

    method CoalesceBlocks(block: nat, ghost i: nat)
      requires mem.Length == MEM_SIZE && Linked(mem[..], blocks)
      requires block == NULL || (i < |blocks| && blocks[i].addr == block)
      modifies mem, this`blocks
      ensures Linked(mem[..], blocks)
      ensures blocks == if block != NULL && old(blocks)[i].free then Coalesced(old(blocks), i) else old(blocks)
      ensures PayloadsKept(old(mem[..]), mem[..], Live(old(blocks)))
      ensures old(Unforged(mem[..], blocks)) ==> Unforged(mem[..], blocks)
      decreases i
    {
      hide Linked, Touched, NoNewMagic, Load, PayloadsKept, Unforged, WellFormed, Merge, Coalesced, Live;
      ghost var m0 := mem[..];
      ghost var bs := blocks;
      KeptSame(m0, Live(bs));
      if block == NULL { return; }
      Surroundings(m0, bs, i);
      if Load(mem[..], block).free == 0 { return; }
      ghost var k := i + 1;
      MergeOne(bs, i);
      LookAhead(mem[..], blocks, bs, i, k);
      while Load(mem[..], block).next != NULL && Load(mem[..], Load(mem[..], block).next).free != 0
        invariant i < k <= |bs| && AllFree(bs, i, k) && blocks == Merge(bs, i, k)
        invariant Linked(mem[..], blocks) && PayloadsKept(m0, mem[..], Live(bs))
        invariant Unforged(m0, bs) ==> Unforged(mem[..], blocks)
        invariant Ahead(mem[..], blocks, bs, i, k, block)
        decreases |bs| - k
      {
        var next := Load(mem[..], block).next;
        if !ValidBlock(mem[..], next) { break; }
        ghost var m1 := mem[..];
        AbsorbNext(block, next, i);
        KeptThen(m0, m1, mem[..], Live(bs));
        MergeStep(bs, i, k);
        k := k + 1;
        LookAhead(mem[..], blocks, bs, i, k);
      }
      CoalesceForward(bs, i, k);
      LookBehind(mem[..], blocks, bs, i, k);
      var prev := Load(mem[..], block).prev;
      if prev != NULL && Load(mem[..], prev).free != 0 {
        ghost var m1 := mem[..];
        CoalesceBlocks(prev, i - 1);
        KeptThen(m0, m1, mem[..], Live(bs));
      }
    }

    // ---------------------------------------------------------------- searching and initialising

    method FindFreeBlock(size: nat) returns (block: nat)
      requires Valid() && heapInitialized
      ensures block == if FirstFit(blocks, size) == |blocks| then NULL else blocks[FirstFit(blocks, size)].addr
    {
      hide Load;
      block := heapHead;
      ghost var k := 0;
      FirstBlock(mem[..], blocks);
      while block != NULL
        invariant k <= |blocks| && block == AddrOrNull(blocks, k) && (block != NULL <==> k < |blocks|)
        invariant forall j :: 0 <= j < k ==> !Fits(blocks[j], size)
        decreases |blocks| - k
      {
        Surroundings(mem[..], blocks, k);
        if Load(mem[..], block).free != 0 && Load(mem[..], block).size >= size { return; }
        block := Load(mem[..], block).next;
        k := k + 1;
      }
    }

    method HeapInit()
      requires Valid()
      modifies this, mem
      ensures Valid() && State() == HeapOps.Fresh
      ensures (forall k: nat :: 0 < k < HEAP_SIZE ==> !MagicAt(old(mem[..]), k)) ==> Unforged(mem[..], blocks)
    {
      heapHead := HEAP_START;
      StoreHeader(heapHead, HEAP_SIZE - HDR, NULL, NULL);
      totalAllocations, totalFrees, failedAllocations := 0, 0, 0;
      heapInitialized := true;
      blocks := HeapOps.FreshBlocks;
      assert blocks[1..] == [];
      assert WellFormed(blocks);
      assert HeaderInPlace(mem[..], blocks, 0);
    }

    // ---------------------------------------------------------------- memory blocks

    method Memset(p: nat, v: byte, n: nat)
      requires mem.Length == MEM_SIZE && HEAP_START <= p && p + n <= HEAP_END + HDR
      modifies mem
      ensures SameBytes(old(mem[..]), mem[..], 0, p - HEAP_START)
      ensures SameBytes(old(mem[..]), mem[..], p - HEAP_START + n, MEM_SIZE)
      ensures forall k :: p - HEAP_START <= k < p - HEAP_START + n ==> mem[k] == v
    {
      var o := p - HEAP_START;
      for i := 0 to n
        invariant forall k :: 0 <= k < mem.Length && !(o <= k < o + i) ==> mem[k] == old(mem[k])
        invariant forall k :: o <= k < o + i ==> mem[k] == v
      {
        mem[o + i] := v;
      }
    }

    method Memcpy(dest: nat, src: nat, n: nat)
      requires mem.Length == MEM_SIZE && HEAP_START <= dest && HEAP_START <= src
      requires dest + n <= HEAP_END && src + n <= HEAP_END
      requires dest <= src || src + n <= dest
      modifies mem
      ensures SameBytes(old(mem[..]), mem[..], 0, dest - HEAP_START)
      ensures SameBytes(old(mem[..]), mem[..], dest - HEAP_START + n, MEM_SIZE)
      ensures forall k :: dest - HEAP_START <= k < dest - HEAP_START + n ==> mem[k] == old(mem[k + src - dest])
    {
      var d, s := dest - HEAP_START, src - HEAP_START;
      ghost var m0 := mem[..];
      for i := 0 to n
        invariant forall k :: 0 <= k < mem.Length && !(d <= k < d + i) ==> mem[k] == m0[k]
        invariant forall k :: d <= k < d + i ==> mem[k] == m0[k + s - d]
      {
        var c := mem[s + i];
        assert c == m0[s + i];
        mem[d + i] := c;
      }
    }

    // ---------------------------------------------------------------- allocating

    /** Takes the free block `i`, already cut to measure, and clears its first `n` bytes. */
    method TakeBlock(block: nat, n: nat, ghost i: nat)
      requires mem.Length == MEM_SIZE && Linked(mem[..], blocks)
      requires i < |blocks| && blocks[i].addr == block && blocks[i].free && n <= blocks[i].size
      modifies mem, this`blocks
      ensures Linked(mem[..], blocks) && blocks == Taken(old(blocks), i)
      ensures PayloadsKept(old(mem[..]), mem[..], Live(old(blocks)))
      ensures ZeroFrom(mem[..], block + HDR, 0, n)
      ensures old(Unforged(mem[..], blocks)) ==> Unforged(mem[..], blocks)
    {
      hide Linked, Touched, Load, PayloadsKept, Unforged, WellFormed, Live;
      ghost var m0 := mem[..];
      ghost var bs := blocks;
      Surroundings(m0, bs, i);
      StoreFree(block, 0);
      ghost var m1 := mem[..];
      LinkedFlag(m0, m1, bs, i, false);
      HeaderWriteKeeps(m0, m1, bs, i);
      blocks := Taken(bs, i);
      Memset(block + HDR, 0, n);
      LinkedPayload(m1, mem[..], blocks, i);
      PayloadWriteKeeps(m1, mem[..], bs, i);
      KeptThen(m0, m1, mem[..], Live(bs));
      HarmlessWrite(m1, mem[..], block + HDR - HEAP_START, block + HDR - HEAP_START + n);
      if Unforged(m0, bs) {
        NoNewMagicThen(m0, m1, mem[..], NULL);
        UnforgedSame(m0, mem[..], bs, blocks);
      }
    }

    method KmallocAligned(size: nat, alignment: nat) returns (ptr: nat)
      requires Valid() && size < TWO64 && alignment < TWO32
      modifies this, mem
      ensures Valid()
      ensures (State(), ptr) == HeapOps.Malloc(old(State()), size, alignment)
      ensures PayloadsKept(old(mem[..]), mem[..], Live(old(blocks)))
      ensures ptr != NULL ==> ZeroFrom(mem[..], ptr, 0, HeapOps.Request(size, alignment))
      ensures old(Unforged(mem[..], blocks)) ==> Unforged(mem[..], blocks)
    {
      hide Linked, Touched, Load, PayloadsKept, Unforged, WellFormed, Live, ZeroFrom, Split, AlignUp, BitAnd;
      ghost var m0 := mem[..];
      ghost var bs := blocks;
      KeptSame(m0, Live(bs));
      if !heapInitialized {
        failedAllocations := (failedAllocations + 1) % TWO32;
        return NULL;
      }
      if size == 0 {
        return NULL;
      }
      var effective := alignment;
      if effective == 0 || BitAnd(effective, effective - 1) != 0 {
        effective := HeapOps.HEAP_ALIGNMENT;
      }
      var n := AlignUp(size, effective);
      var block := FindFreeBlock(n);
      if block == NULL {
        failedAllocations := (failedAllocations + 1) % TWO32;
        FirstFitAddr(mem[..], bs, n);
        return NULL;
      }
      ghost var i := FirstFit(bs, n);
      SplitBlock(block, n, i);
      ghost var m1 := mem[..];
      SplitLive(bs, i, n);
      TakeBlock(block, n, i);
      KeptThen(m0, m1, mem[..], Live(bs));
      HeapCanonical(mem[..], bs, n);
      ptr := block + HDR;
      totalAllocations := (totalAllocations + 1) % TWO32;
    }

    method Kmalloc(size: nat) returns (ptr: nat)
      requires Valid() && size < TWO64
      modifies this, mem
      ensures Valid()
      ensures (State(), ptr) == HeapOps.Malloc(old(State()), size, HeapOps.HEAP_ALIGNMENT)
      ensures PayloadsKept(old(mem[..]), mem[..], Live(old(blocks)))
      ensures ptr != NULL ==> ZeroFrom(mem[..], ptr, 0, HeapOps.Request(size, HeapOps.HEAP_ALIGNMENT))
      ensures old(Unforged(mem[..], blocks)) ==> Unforged(mem[..], blocks)
    {
      ptr := KmallocAligned(size, HeapOps.HEAP_ALIGNMENT);
    }

    method Kcalloc(nmemb: nat, size: nat) returns (ptr: nat)
      requires Valid() && nmemb < TWO64 && size < TWO64
      modifies this, mem
      ensures Valid()
      ensures (State(), ptr) == HeapOps.Calloc(old(State()), nmemb, size)
      ensures PayloadsKept(old(mem[..]), mem[..], Live(old(blocks)))
      ensures ptr != NULL ==>
        && HeapOps.Product(nmemb, size) < TWO64
        && ZeroFrom(mem[..], ptr, 0, HeapOps.Request(HeapOps.Product(nmemb, size), HeapOps.HEAP_ALIGNMENT))
      ensures old(Unforged(mem[..], blocks)) ==> Unforged(mem[..], blocks)
    {
      hide Load, Linked, Unforged, PayloadsKept, ZeroFrom, AlignUp, HeapOps.Product, HeapOps.Malloc, HeapOps.Request;
      var totalSize := HeapOps.Product(nmemb, size) % TWO64;
      HeapOps.CallocOverflow(nmemb, size);
      if nmemb != 0 && totalSize / nmemb != size {
        failedAllocations := (failedAllocations + 1) % TWO32;
        KeptSame(mem[..], Live(blocks));
        return NULL;
      }
      ptr := Kmalloc(totalSize);
    }

    // ---------------------------------------------------------------- freeing

    /** A pointer at whose block address no payload bytes pose as a header. */
    ghost predicate Genuine(ptr: nat)
      requires mem.Length == MEM_SIZE
      reads this, mem
    {
      ValidBlock(mem[..], ptr - HDR) ==> HeapOps.BlockOf(blocks, ptr) < |blocks|
    }

    method Kfree(ptr: nat)
      requires Valid() && Genuine(ptr)
      modifies this, mem
      ensures Valid()
      ensures State() == HeapOps.Free(old(State()), ptr)
      ensures PayloadsKept(old(mem[..]), mem[..], Live(blocks))
      ensures !old(HeapOps.IsLive(blocks, ptr)) ==> mem[..] == old(mem[..])
      ensures old(Unforged(mem[..], blocks)) ==> Unforged(mem[..], blocks)
    {
      hide Linked, Load, PayloadsKept, Unforged, WellFormed, Live, Coalesced;
      ghost var m0 := mem[..];
      ghost var bs := blocks;
      KeptSame(m0, Live(bs));
      if ptr == NULL || !heapInitialized { return; }
      var block := ptr - HDR;
      if !ValidBlock(mem[..], block) {
        ListedIsValid(m0, bs, ptr);
        return;
      }
      ghost var i := HeapOps.BlockOf(bs, ptr);
      Surroundings(m0, bs, i);
      if Load(mem[..], block).free != 0 { return; }
      StoreFree(block, 1);
      ghost var m1 := mem[..];
      ghost var released := bs[i := bs[i].(free := true)];
      LinkedFlag(m0, m1, bs, i, true);
      HeaderWriteKeeps(m0, m1, bs, i);
      UnforgedWhen(m0, m1, bs, released);
      blocks := released;
      CoalesceBlocks(block, i);
      FreeKeeps(m0, m1, mem[..], bs, i);
      totalFrees := (totalFrees + 1) % TWO32;
    }

    // ---------------------------------------------------------------- reallocating

    /**
      Copies the payload of block `i` of `bs` to the freshly granted block, which may be that very block if it
      was free.
     */
    method CopyPayload(newPtr: nat, ptr: nat, size: nat, ghost bs: seq<Block>, ghost n: nat, ghost i: nat)
      requires mem.Length == MEM_SIZE && Linked(mem[..], blocks) && WellFormed(bs)
      requires FirstFit(bs, n) < |bs| && blocks == Allocated(bs, n)
      requires i < |bs| && size == HeapOps.CopySize(bs, n, i) <= Granted(bs, n).size
      requires newPtr == Granted(bs, n).addr + HDR && ptr == bs[i].addr + HDR
      requires ZeroFrom(mem[..], newPtr, 0, n)
      modifies mem
      ensures Linked(mem[..], blocks)
      ensures PayloadsKept(old(mem[..]), mem[..], Live(bs))
      ensures i != FirstFit(bs, n) ==>
        Copied(old(mem[..]), mem[..], newPtr, ptr, size) && ZeroFrom(mem[..], newPtr, size, n)
      ensures old(Unforged(mem[..], blocks)) && size < n ==> Unforged(mem[..], blocks)
    {
      hide Linked, PayloadsKept, Unforged, WellFormed, Live, Allocated, Granted, FirstFit, ZeroFrom, Copied;
      GrantPlace(bs, n, i);
      Memcpy(newPtr, ptr, size);
      if newPtr == ptr {
        SameMemory(old(mem[..]), mem[..], newPtr - HEAP_START, size, Live(bs));
      } else {
        CopyEffect(old(mem[..]), mem[..], bs, blocks, n, i);
      }
    }

    method Krealloc(ptr: nat, newSize: nat) returns (newPtr: nat)
      requires Valid() && Genuine(ptr) && newSize < TWO64 && HeapOps.CopyFits(State(), ptr, newSize)
      modifies this, mem
      ensures Valid()
      ensures (State(), newPtr) == HeapOps.Realloc(old(State()), ptr, newSize)
      ensures PayloadsKept(old(mem[..]), mem[..], Live(old(blocks)) * Live(blocks))
      ensures old(HeapOps.Grows(State(), ptr, newSize) && HeapOps.IsLive(blocks, ptr)) && newPtr != NULL ==>
        var size := old(blocks)[HeapOps.BlockOf(old(blocks), ptr)].size;
        && Copied(old(mem[..]), mem[..], newPtr, ptr, size)
        && ZeroFrom(mem[..], newPtr, size, HeapOps.Request(newSize, HeapOps.HEAP_ALIGNMENT))
      ensures old(ptr != NULL && newSize != 0 && !HeapOps.Grows(State(), ptr, newSize)) ==> mem[..] == old(mem[..])
      ensures newPtr == ptr && old(HeapOps.IsLive(blocks, ptr)) ==> mem[..] == old(mem[..])
      ensures old(Unforged(mem[..], blocks) && HeapOps.AsksForMore(State(), ptr, newSize)) ==> Unforged(mem[..], blocks)
    {
      hide Linked, Load, PayloadsKept, Unforged, WellFormed, Live, Allocated, AlignUp, ZeroFrom, Copied;
      ghost var m0 := mem[..];
      ghost var bs := blocks;
      if ptr == NULL {
        newPtr := Kmalloc(newSize);
        KeptLess(m0, mem[..], Live(bs), Live(bs) * Live(blocks));
        return;
      }
      if newSize == 0 {
        Kfree(ptr);
        KeptLess(m0, mem[..], Live(blocks), Live(bs) * Live(blocks));
        return NULL;
      }
      KeptSame(m0, Live(bs) * Live(bs));
      var block := ptr - HDR;
      if !ValidBlock(mem[..], block) {
        if heapInitialized { ListedIsValid(m0, bs, ptr); }
        return NULL;
      }
      ghost var i := HeapOps.BlockOf(bs, ptr);
      Surroundings(m0, bs, i);
      if newSize <= Load(mem[..], block).size {
        return ptr;
      }
      newPtr := KreallocMove(ptr, newSize, i);
    }

    /** The rest of krealloc: a new block, the copy, and the release of the old block. */
    method KreallocMove(ptr: nat, newSize: nat, ghost i: nat) returns (newPtr: nat)
      requires Valid() && heapInitialized && newSize < TWO64 && HeapOps.CopyFits(State(), ptr, newSize)
      requires i == HeapOps.BlockOf(blocks, ptr) < |blocks| && newSize > blocks[i].size
      modifies this, mem
      ensures Valid()
      ensures (State(), newPtr) == HeapOps.Move(old(State()), ptr, newSize)
      ensures PayloadsKept(old(mem[..]), mem[..], Live(old(blocks)) * Live(blocks))
      ensures newPtr != NULL && !old(blocks)[i].free ==>
        && Copied(old(mem[..]), mem[..], newPtr, ptr, old(blocks)[i].size)
        && ZeroFrom(mem[..], newPtr, old(blocks)[i].size, HeapOps.Request(newSize, HeapOps.HEAP_ALIGNMENT))
      ensures newPtr == ptr ==> old(blocks)[i].free
      ensures old(Unforged(mem[..], blocks) && HeapOps.AsksForMore(State(), ptr, newSize)) ==> Unforged(mem[..], blocks)
    {
      hide Linked, Load, PayloadsKept, Unforged, Live, Allocated, Granted, AlignUp, ZeroFrom, Copied, NoAdjacentFree;
      hide HeapOps.Malloc, HeapOps.Free, HeapOps.Request, HeapOps.CopySize, FirstFit, Find, Freed, InHeap, ValidBlock;
      ghost var m0 := mem[..];
      ghost var bs := blocks;
      Surroundings(m0, bs, i);
      newPtr := Kmalloc(newSize);
      if newPtr == NULL {
        KeptLess(m0, mem[..], Live(bs), Live(bs) * Live(blocks));
        return;
      }
      ghost var n := HeapOps.Request(newSize, HeapOps.HEAP_ALIGNMENT);
      ghost var m1 := mem[..];
      MallocGranted(old(State()), newSize);
      ghost var middle := State();
      ghost var j := OldBlockStays(m1, bs, blocks, n, i);
      GrantPlace(bs, n, i);
      var oldSize := Load(mem[..], ptr - HDR).size;
      CopyPayload(newPtr, ptr, oldSize, bs, n, i);
      ghost var m2 := mem[..];
      ListedIsGenuine(blocks, ptr, j);
      Kfree(ptr);
      FreeBlocks(middle, ptr);
      MovedKeeps(m0, m1, m2, mem[..], Live(bs), Live(blocks));
      if !bs[i].free {
        GrantStays(bs, n, i, blocks);
        LiveBlock(bs, i);
        CopyStays(m0, m1, m2, mem[..], Live(bs), Live(blocks), bs[i], Granted(bs, n), n);
      }
    }

    // ---------------------------------------------------------------- what callers do between calls

    /** A caller's write of one byte inside the payload of the live block `i`. */
    method WritePayload(p: nat, v: byte, ghost i: nat)
      requires Valid() && i < |blocks| && !blocks[i].free
      requires blocks[i].addr + HDR <= p < blocks[i].End()
      requires HEAP_START <= blocks[i].addr && blocks[i].End() <= HEAP_END
      modifies mem
      ensures Valid() && State() == old(State())
      ensures mem[..] == old(mem[..])[p - HEAP_START := v]
      ensures PayloadsKept(old(mem[..]), mem[..], Live(blocks) - {blocks[i]})
      ensures old(Unforged(mem[..], blocks)) ==>
        && (Unforged(mem[..], blocks) <==> NoMagicAround(mem[..], blocks, p))
        && (v !in MAGIC_BYTES ==> Unforged(mem[..], blocks))
    {
      hide Load, Unforged, NoMagicAround;
      mem[p - HEAP_START] := v;
      if old(Unforged(mem[..], blocks)) {
        WrittenByte(old(mem[..]), mem[..], blocks, p);
      }
      LinkedPayload(old(mem[..]), mem[..], blocks, i);
      OtherPayloadsKept(old(mem[..]), mem[..], blocks, i);
    }

    // ---------------------------------------------------------------- statistics and validation

    method HeapGetStats() returns (stats: Option<HeapStats>)
      requires Valid()
      ensures stats.Some? <==> heapInitialized
      ensures stats.Some? ==> stats.value == StatsOf(State())
    {
      hide Linked, Load;
      if !heapInitialized { return None; }
      var usedSize, freeSize, blockCount, freeBlockCount, usedBlockCount := 0, 0, 0, 0, 0;
      var current := heapHead;
      ghost var k := 0;
      FirstBlock(mem[..], blocks);
      while current != NULL
        invariant k <= |blocks| && current == AddrOrNull(blocks, k) && (current != NULL <==> k < |blocks|)
        invariant usedSize == SumSizes(blocks[..k], false) && freeSize == SumSizes(blocks[..k], true)
        invariant usedBlockCount == CountBlocks(blocks[..k], false) && freeBlockCount == CountBlocks(blocks[..k], true)
        invariant blockCount == k
        decreases |blocks| - k
      {
        Surroundings(mem[..], blocks, k);
        ListedMagic(mem[..], blocks, k);
        if !ValidBlock(mem[..], current) { break; }
        CountsAppend(blocks, k, true);
        CountsAppend(blocks, k, false);
        blockCount := blockCount + 1;
        if Load(mem[..], current).free != 0 {
          freeSize := freeSize + Load(mem[..], current).size;
          freeBlockCount := freeBlockCount + 1;
        } else {
          usedSize := usedSize + Load(mem[..], current).size;
          usedBlockCount := usedBlockCount + 1;
        }
        current := Load(mem[..], current).next;
        k := k + 1;
      }
      assert blocks[..k] == blocks;
      stats := Some(HeapStats(HEAP_START, HEAP_START + HEAP_SIZE, HEAP_SIZE, usedSize, freeSize,
                              blockCount, freeBlockCount, usedBlockCount,
                              totalAllocations, totalFrees, failedAllocations));
    }

    /** Whatever the memory holds: true when the walk from the head meets only valid headers, as far as it goes. */
    method HeapValidate() returns (ok: bool)
      requires mem.Length == MEM_SIZE
      ensures ok <==>
        heapInitialized && forall j: nat :: j < MAX_CHECKED ==> Sane(mem[..], Follow(mem[..], heapHead, j))
      ensures Valid() ==> ok == heapInitialized
    {
      hide Linked, Load;
      if !heapInitialized { return false; }
      ListedAreSane(mem[..], blocks);
      var current := heapHead;
      var blocksChecked: nat := 0;
      while current != NULL && blocksChecked < MAX_CHECKED
        invariant blocksChecked <= MAX_CHECKED && current == Follow(mem[..], heapHead, blocksChecked)
        invariant forall j: nat :: j < blocksChecked ==> Sane(mem[..], Follow(mem[..], heapHead, j))
        decreases MAX_CHECKED - blocksChecked
      {
        if !ValidBlock(mem[..], current) {
          assert !Sane(mem[..], Follow(mem[..], heapHead, blocksChecked));
          return false;
        }
        FollowOn(mem[..], heapHead, blocksChecked);
        current := Load(mem[..], current).next;
        blocksChecked := blocksChecked + 1;
      }
      FollowStays(mem[..], heapHead, blocksChecked);
      return true;
    }
  }

  const MAX_CHECKED: nat := 10000

  /** An address at which the walk of heap_validate does not stop with an error. */
  predicate Sane(m: seq<byte>, p: nat)
    requires |m| == MEM_SIZE
  {
    p == NULL || ValidBlock(m, p)
  }

  /** The address `j` links after `p`; the walk ends at NULL and at headers that are not valid. */
  function Follow(m: seq<byte>, p: nat, j: nat): nat
    requires |m| == MEM_SIZE
  {
    if j == 0 then p
    else
      var q := Follow(m, p, j - 1);
      if ValidBlock(m, q) then Load(m, q).next else q
  }

  lemma FollowOn(m: seq<byte>, p: nat, j: nat)
    requires |m| == MEM_SIZE
    ensures var q := Follow(m, p, j);
      Follow(m, p, j + 1) == if ValidBlock(m, q) then Load(m, q).next else q
  {
  }

  /** Once the walk has reached NULL it stays there. */
  lemma FollowStays(m: seq<byte>, p: nat, j: nat)
    requires |m| == MEM_SIZE
    ensures Follow(m, p, j) == NULL ==> forall k: nat :: j <= k ==> Follow(m, p, k) == NULL
  {
    if Follow(m, p, j) == NULL {
      forall k: nat | j <= k ensures Follow(m, p, k) == NULL {
        FollowFrom(m, p, j, k);
      }
    }
  }

  lemma {:induction false} FollowFrom(m: seq<byte>, p: nat, j: nat, k: nat)
    requires |m| == MEM_SIZE && j <= k && Follow(m, p, j) == NULL
    ensures Follow(m, p, k) == NULL
  {
    if j < k { FollowFrom(m, p, j, k - 1); }
  }

  /** In the memory of a list the walk meets its blocks one after the other, and then NULL. */
  lemma {:induction false} FollowListed(m: seq<byte>, bs: seq<Block>, j: nat)
    requires |m| == MEM_SIZE && Linked(m, bs)
    ensures Follow(m, HEAP_START, j) == AddrOrNull(bs, j)
  {
    hide Linked, Load, ValidBlock;
    if j == 0 {
      FirstBlock(m, bs);
    } else {
      FollowListed(m, bs, j - 1);
      FollowOn(m, HEAP_START, j - 1);
      NullIsInvalid(m);
      if j - 1 < |bs| {
        Surroundings(m, bs, j - 1);
        ListedMagic(m, bs, j - 1);
      }
    }
  }

  lemma NullIsInvalid(m: seq<byte>)
    requires |m| == MEM_SIZE
    ensures !ValidBlock(m, NULL)
  {
  }

  lemma ListedAreSane(m: seq<byte>, bs: seq<Block>)
    requires |m| == MEM_SIZE
    ensures Linked(m, bs) ==> forall j: nat :: Sane(m, Follow(m, HEAP_START, j))
  {
    hide Linked, ValidBlock;
    if Linked(m, bs) {
      forall j: nat ensures Sane(m, Follow(m, HEAP_START, j)) {
        FollowListed(m, bs, j);
        if j < |bs| { ListedMagic(m, bs, j); }
      }
    }
  }

  datatype Option<T> = None | Some(value: T)

  datatype HeapStats = HeapStats(heapStart: nat, heapEnd: nat, totalSize: nat, usedSize: nat, freeSize: nat,
                                 blockCount: nat, freeBlockCount: nat, usedBlockCount: nat,
                                 allocationCount: nat, freeCount: nat, failedAllocs: nat)

  /** The statistics that describe a state. */
  function StatsOf(s: HeapOps.State): HeapStats {
    HeapStats(HEAP_START, HEAP_END, HEAP_SIZE, SumSizes(s.blocks, false), SumSizes(s.blocks, true),
              |s.blocks|, CountBlocks(s.blocks, true), CountBlocks(s.blocks, false),
              s.allocations, s.frees, s.failures)
  }

  const MAGIC_BYTES: set<byte> := {0xEF, 0xBE, 0xAD, 0xDE}

  /** The four bytes at no address from p - 3 to p spell the magic number, except at the address of a block. */
  ghost predicate NoMagicAround(m: seq<byte>, bs: seq<Block>, p: nat)
    requires |m| == MEM_SIZE
  {
    forall k: nat :: k < HEAP_SIZE && HEAP_START + k <= p <= HEAP_START + k + 3 && MagicAt(m, k) ==>
      Find(bs, HEAP_START + k) < |bs|
  }

  /** One byte written forges a magic number if and only if one of the four windows around it spells it. */
  lemma WrittenByte(m: seq<byte>, m': seq<byte>, bs: seq<Block>, p: nat)
    requires |m| == |m'| == MEM_SIZE && HEAP_START <= p < HEAP_START + MEM_SIZE && Unforged(m, bs)
    requires m' == m[p - HEAP_START := m'[p - HEAP_START]]
    ensures Unforged(m', bs) <==> NoMagicAround(m', bs, p)
    ensures m'[p - HEAP_START] !in MAGIC_BYTES ==> Unforged(m', bs)
  {
    forall k: nat | k < HEAP_SIZE && MagicAt(m', k) && !(HEAP_START + k <= p <= HEAP_START + k + 3)
      ensures Find(bs, HEAP_START + k) < |bs|
    {
      assert MagicAt(m, k);
    }
  }

  lemma OtherPayloadsKept(m: seq<byte>, m': seq<byte>, bs: seq<Block>, i: nat)
    requires |m| == |m'| == MEM_SIZE && WellFormed(bs) && i < |bs|
    requires SameBytes(m, m', 0, bs[i].addr + HDR - HEAP_START)
    requires SameBytes(m, m', bs[i].End() - HEAP_START, MEM_SIZE)
    ensures PayloadsKept(m, m', Live(bs) - {bs[i]})
  {
    TilesOrdered(bs, HEAP_START, HEAP_END);
  }

  /** As long as no payload spells it, the magic number marks exactly the listed blocks; so every pointer is genuine. */
  lemma MagicMarksBlocks(m: seq<byte>, bs: seq<Block>, p: nat)
    requires |m| == MEM_SIZE && Linked(m, bs) && Unforged(m, bs) && InHeap(p)
    ensures Load(m, p).magic == HEAP_MAGIC <==> Find(bs, p) < |bs|
    ensures ValidBlock(m, p) <==> HeapOps.BlockOf(bs, p + HDR) < |bs|
  {
    MagicBytes(m, p);
    var i := Find(bs, p);
    if i < |bs| {
      assert HeaderInPlace(m, bs, i);
    }
  }

  lemma ListedMagic(m: seq<byte>, bs: seq<Block>, i: nat)
    requires |m| == MEM_SIZE && Linked(m, bs) && i < |bs|
    ensures ValidBlock(m, bs[i].addr)
  {
    assert HeaderInPlace(m, bs, i);
  }

  /** What a caller learns from a successful allocation. */
  lemma MallocGranted(s: HeapOps.State, size: nat)
    requires size < TWO64 && HeapOps.Malloc(s, size, HeapOps.HEAP_ALIGNMENT).1 != NULL
    ensures var n := HeapOps.Request(size, HeapOps.HEAP_ALIGNMENT);
      var s' := HeapOps.Malloc(s, size, HeapOps.HEAP_ALIGNMENT).0;
      && FirstFit(s.blocks, n) < |s.blocks|
      && s'.blocks == Allocated(s.blocks, n) && s'.ready
      && HeapOps.Malloc(s, size, HeapOps.HEAP_ALIGNMENT).1 == Granted(s.blocks, n).addr + HDR
  {
  }

  lemma FreeBlocks(s: HeapOps.State, ptr: nat)
    requires ptr >= HDR
    ensures HeapOps.Free(s, ptr).blocks == s.blocks || HeapOps.Free(s, ptr).blocks == Freed(s.blocks, ptr - HDR)
  {
  }

  lemma LiveBlock(bs: seq<Block>, i: nat)
    requires i < |bs| && !bs[i].free
    ensures bs[i] in Live(bs)
  {
  }

  /** The `n` bytes from distance `lo` on after `p` up to distance `hi` are zero. */
  ghost predicate ZeroFrom(m: seq<byte>, p: nat, lo: nat, hi: nat)
    requires |m| == MEM_SIZE
  {
    forall k :: 0 <= k < |m| && p - HEAP_START + lo <= k < p - HEAP_START + hi ==> m[k] == 0
  }

  /** The `n` bytes from `dest` on are what those from `src` on were. */
  ghost predicate Copied(m: seq<byte>, m': seq<byte>, dest: nat, src: nat, n: nat)
    requires |m| == |m'| == MEM_SIZE
  {
    && HEAP_START <= src && src + n <= HEAP_END && HEAP_START <= dest && dest + n <= HEAP_END
    && m'[dest - HEAP_START..dest - HEAP_START + n] == m[src - HEAP_START..src - HEAP_START + n]
  }

  function AddrOrNull(bs: seq<Block>, k: nat): nat {
    if k < |bs| then bs[k].addr else NULL
  }

  lemma FirstBlock(m: seq<byte>, bs: seq<Block>)
    requires |m| == MEM_SIZE && Linked(m, bs)
    ensures AddrOrNull(bs, 0) == HEAP_START && |bs| > 0
  {
  }

  lemma FirstFitAddr(m: seq<byte>, bs: seq<Block>, n: nat)
    requires |m| == MEM_SIZE && Linked(m, bs)
    ensures FirstFit(bs, n) < |bs| ==> bs[FirstFit(bs, n)].addr != NULL
  {
    if FirstFit(bs, n) < |bs| {
      assert HeaderInPlace(m, bs, FirstFit(bs, n));
    }
  }

  /** Cutting a free block changes no live one. */
  lemma SplitLive(bs: seq<Block>, i: nat, n: nat)
    requires i < |bs| && bs[i].free && n <= bs[i].size
    ensures Live(Split(bs, i, n)) == Live(bs)
  {
    var r := Split(bs, i, n);
    if |r| > |bs| {
      var mid := [r[i], r[i + 1]];
      assert r == bs[..i] + mid + bs[i + 1..];
      LiveReplace(bs, i, i + 1, mid);
      assert Live(mid) == {} && Live(bs[i..i + 1]) == {};
    }
  }

  /** Writes inside the payload of a free block reach no live payload. */
  lemma PayloadWriteKeeps(m: seq<byte>, m': seq<byte>, bs: seq<Block>, i: nat)
    requires |m| == |m'| == MEM_SIZE && WellFormed(bs) && i < |bs| && bs[i].free
    requires SameBytes(m, m', 0, bs[i].addr + HDR - HEAP_START)
    requires SameBytes(m, m', bs[i].End() - HEAP_START, MEM_SIZE)
    ensures PayloadsKept(m, m', Live(bs))
  {
    TilesOrdered(bs, HEAP_START, HEAP_END);
  }

  lemma HeaderWriteKeeps(m: seq<byte>, m': seq<byte>, bs: seq<Block>, i: nat)
    requires |m| == |m'| == MEM_SIZE && WellFormed(bs) && i < |bs| && InHeap(bs[i].addr)
    requires OnlyHeader(m, m', bs[i].addr)
    ensures PayloadsKept(m, m', Live(bs))
  {
    TilesOrdered(bs, HEAP_START, HEAP_END);
  }

  lemma ListedIsValid(m: seq<byte>, bs: seq<Block>, ptr: nat)
    requires |m| == MEM_SIZE && Linked(m, bs)
    ensures HeapOps.BlockOf(bs, ptr) < |bs| ==> ValidBlock(m, ptr - HDR)
  {
    if HeapOps.BlockOf(bs, ptr) < |bs| {
      assert HeaderInPlace(m, bs, HeapOps.BlockOf(bs, ptr));
    }
  }

  lemma UnforgedWhen(m: seq<byte>, m': seq<byte>, bs: seq<Block>, r: seq<Block>)
    requires |m| == |m'| == MEM_SIZE
    requires |r| == |bs| && forall k :: 0 <= k < |bs| ==> r[k].addr == bs[k].addr
    ensures NoNewMagic(m, m', NULL) && Unforged(m, bs) ==> Unforged(m', r)
  {
    if NoNewMagic(m, m', NULL) && Unforged(m, bs) {
      UnforgedSame(m, m', bs, r);
    }
  }

  /** Marking block `i` free and coalescing leaves the payloads of what is still live. */
  lemma FreeKeeps(m: seq<byte>, m1: seq<byte>, m': seq<byte>, bs: seq<Block>, i: nat)
    requires |m| == |m1| == |m'| == MEM_SIZE && WellFormed(bs) && i < |bs| && !bs[i].free
    requires PayloadsKept(m, m1, Live(bs)) && NoAdjacentFree(bs)
    requires var f := bs[i := bs[i].(free := true)];
      PayloadsKept(m1, m', Live(f))
    ensures var r := Coalesced(bs[i := bs[i].(free := true)], i);
      PayloadsKept(m, m', Live(r)) && NoAdjacentFree(r) && r == Freed(bs, bs[i].addr)
  {
    var f := bs[i := bs[i].(free := true)];
    ReleasedLive(bs, i);
    CoalescedLive(f, i);
    TilesUpdate(bs, HEAP_START, HEAP_END, i, true);
    CoalescedCanonical(f, i);
    FindUnique(bs, HEAP_START, HEAP_END, i);
    KeptLess(m, m1, Live(bs), Live(f));
    KeptThen(m, m1, m', Live(f));
  }

  lemma KeptLess(m: seq<byte>, m': seq<byte>, live: set<Block>, fewer: set<Block>)
    requires |m| == |m'| == MEM_SIZE && PayloadsKept(m, m', live) && fewer <= live
    ensures PayloadsKept(m, m', fewer)
  {
  }

  // ---------------------------------------------------------------- reallocating: what the steps need

  /** The block being reallocated stays listed: as it was, unless the search has taken it. */
  lemma OldBlockStays(m: seq<byte>, bs: seq<Block>, r: seq<Block>, n: nat, i: nat) returns (j: nat)
    requires |m| == MEM_SIZE && Linked(m, r) && FirstFit(bs, n) < |bs| && r == Allocated(bs, n) && i < |bs|
    ensures j < |r| && r[j].addr == bs[i].addr
    ensures InHeap(bs[i].addr) && Load(m, bs[i].addr).size == HeapOps.CopySize(bs, n, i)
    ensures !bs[i].free || bs[i].size < n ==> i != FirstFit(bs, n) && HeapOps.CopySize(bs, n, i) == bs[i].size
  {
    if i == FirstFit(bs, n) {
      j := i;
    } else {
      j := AllocatedKeeps(bs, n, i);
    }
    assert HeaderInPlace(m, r, j);
  }

  lemma ListedIsGenuine(bs: seq<Block>, ptr: nat, j: nat)
    requires j < |bs| && bs[j].addr + HDR == ptr
    ensures HeapOps.BlockOf(bs, ptr) < |bs|
  {
  }

  /** Where the granted block and the old one lie. */
  lemma GrantPlace(bs: seq<Block>, n: nat, i: nat)
    requires WellFormed(bs) && FirstFit(bs, n) < |bs| && i < |bs|
    ensures var g, b, r := FirstFit(bs, n), Granted(bs, n), Allocated(bs, n);
      && g < |r| && r[g] == b && bs[g].free && InHeap(b.addr)
      && b.addr == bs[g].addr && b.End() <= bs[g].End() <= HEAP_END
      && HEAP_START <= bs[i].addr && bs[i].End() <= HEAP_END
      && (i == g || b.End() <= bs[i].addr || bs[i].End() <= b.addr)
  {
    TilesOrdered(bs, HEAP_START, HEAP_END);
  }

  lemma NoBlockInPayload(bs: seq<Block>, j: nat, p: nat)
    requires WellFormed(bs) && j < |bs| && bs[j].addr < p < bs[j].End()
    ensures Find(bs, p) == |bs|
  {
    TilesOrdered(bs, HEAP_START, HEAP_END);
  }

  /** Memory after the old payload's `size` bytes went to index `d` from index `s`. */
  ghost predicate CopiedOver(m: seq<byte>, m': seq<byte>, d: int, s: int, size: nat)
    requires |m| == |m'| == MEM_SIZE
  {
    && 0 < d && d + size < MEM_SIZE && 0 <= s && s + size <= MEM_SIZE
    && SameBytes(m, m', 0, d) && SameBytes(m, m', d + size, MEM_SIZE)
    && forall k :: d <= k < d + size ==> m'[k] == m[k + s - d]
  }

  /** Copying one payload over zeroed bytes of another spells the magic number nowhere new. */
  lemma CopyHarmless(m: seq<byte>, m': seq<byte>, bs: seq<Block>, g: nat, j: nat, d: int, s: int, size: nat)
    requires |m| == |m'| == MEM_SIZE && Linked(m, bs) && Unforged(m, bs) && g < |bs| && j < |bs|
    requires CopiedOver(m, m', d, s, size) && m[d + size] == 0 && size == bs[j].size
    requires d == bs[g].addr + HDR - HEAP_START && s == bs[j].addr + HDR - HEAP_START
    ensures Unforged(m', bs)
  {
    BlockInHeap(bs, g);
    BlockInHeap(bs, j);
    assert HeaderInPlace(m, bs, g);
    PrevBelowSmall(bs, g);
    SmallHighByte(Bytes(m, bs[g].addr, 21, 8), 7);
    forall q: nat | s <= q && q + 3 < s + size ensures !MagicAt(m, q) {
      NoBlockInPayload(bs, j, HEAP_START + q);
    }
    forall k: nat | k < HEAP_SIZE && MagicAt(m', k) ensures Find(bs, HEAP_START + k) < |bs| {
      WindowCopied(m, m', d, s, size, k);
      assert MagicAt(m, k);
    }
  }

  lemma CopyKeepsLists(m: seq<byte>, m': seq<byte>, bs: seq<Block>, r: seq<Block>, g: nat, d: int, s: int, size: nat)
    requires |m| == |m'| == MEM_SIZE && CopiedOver(m, m', d, s, size)
    requires Linked(m, r) && WellFormed(bs) && g < |r| && g < |bs| && bs[g].free && InHeap(r[g].addr)
    requires r[g].addr == bs[g].addr && d == r[g].addr + HDR - HEAP_START && size <= r[g].size <= bs[g].size
    ensures Linked(m', r) && PayloadsKept(m, m', Live(bs))
  {
    LinkedPayload(m, m', r, g);
    PayloadWriteKeeps(m, m', bs, g);
  }

  /** What the copy does to the heap: the old payload over the granted one, and nothing else. */
  lemma CopyEffect(m: seq<byte>, m': seq<byte>, bs: seq<Block>, r: seq<Block>, n: nat, i: nat)
    requires |m| == |m'| == MEM_SIZE && Linked(m, r) && WellFormed(bs)
    requires FirstFit(bs, n) < |bs| && r == Allocated(bs, n)
    requires i < |bs| && i != FirstFit(bs, n) && bs[i].size <= Granted(bs, n).size
    requires ZeroFrom(m, Granted(bs, n).addr + HDR, 0, n)
    requires CopiedOver(m, m', Granted(bs, n).addr + HDR - HEAP_START, bs[i].addr + HDR - HEAP_START, bs[i].size)
    ensures Linked(m', r) && PayloadsKept(m, m', Live(bs))
    ensures Copied(m, m', Granted(bs, n).addr + HDR, bs[i].addr + HDR, bs[i].size)
    ensures ZeroFrom(m', Granted(bs, n).addr + HDR, bs[i].size, n)
    ensures Unforged(m, r) && bs[i].size < n ==> Unforged(m', r)
  {
    hide Linked, WellFormed, Live, Allocated, Granted, FirstFit, Unforged, PayloadsKept, Copied, ZeroFrom, CopiedOver;
    var g, b := FirstFit(bs, n), Granted(bs, n);
    var d, s := b.addr + HDR - HEAP_START, bs[i].addr + HDR - HEAP_START;
    GrantPlace(bs, n, i);
    var j := AllocatedKeeps(bs, n, i);
    CopyBytesMoved(m, m', b.addr + HDR, bs[i].addr + HDR, bs[i].size, n);
    CopyKeepsLists(m, m', bs, r, g, d, s, bs[i].size);
    CopyKeepsUnforged(m, m', r, g, j, d, s, bs[i].size, n);
  }

  /** Copying a range onto itself. */
  lemma SameMemory(m: seq<byte>, m': seq<byte>, d: int, size: nat, live: set<Block>)
    requires |m| == |m'| == MEM_SIZE && SameBytes(m, m', 0, d) && SameBytes(m, m', d + size, MEM_SIZE)
    requires 0 <= d && d + size <= MEM_SIZE && forall k :: d <= k < d + size ==> m'[k] == m[k]
    ensures m' == m && PayloadsKept(m, m', live)
  {
  }

  /**
    A copy that does not fit overwrites the header after the granted block. Unless it brings a first magic byte, the
    list is lost, and the walk from the head runs into what was that header.
   */
  lemma OverrunHeader(m: seq<byte>, m': seq<byte>, r: seq<Block>, g: nat, src: nat, size: nat)
    requires |m| == |m'| == MEM_SIZE && Linked(m, r) && g + 1 < |r| && r[g].size < size && HEAP_START <= src
    requires CopiedOver(m, m', r[g].addr + HDR - HEAP_START, src - HEAP_START, size)
    requires m[src - HEAP_START + r[g].size] != 0xEF
    ensures !Linked(m', r)
    ensures !Sane(m', Follow(m', HEAP_START, g + 1))
  {
    hide Load;
    Surroundings(m, r, g);
    MagicBytes(m', r[g + 1].addr);
    FollowPrefix(m, m', r, g, g + 1);
    if Linked(m', r) {
      ListedMagic(m', r, g + 1);
      assert false;
    }
  }

  /** The walk as far as the block after `g`, when nothing up to the payload of block `g` has changed. */
  lemma {:induction false} FollowPrefix(m: seq<byte>, m': seq<byte>, bs: seq<Block>, g: nat, j: nat)
    requires |m| == |m'| == MEM_SIZE && Linked(m, bs) && g + 1 < |bs| && j <= g + 1
    requires SameBytes(m, m', 0, bs[g].addr + HDR - HEAP_START)
    ensures Follow(m', HEAP_START, j) == bs[j].addr
  {
    hide Linked, Load;
    if j == 0 {
      FirstBlock(m, bs);
    } else {
      FollowPrefix(m, m', bs, g, j - 1);
      FollowOn(m', HEAP_START, j - 1);
      Surroundings(m, bs, j - 1);
      TilesOrdered(bs, HEAP_START, HEAP_END);
      ListedMagic(m, bs, j - 1);
      LoadDependsOnHeader(m, m', bs[j - 1].addr);
    }
  }

  lemma CopyBytesMoved(m: seq<byte>, m': seq<byte>, dest: nat, src: nat, size: nat, n: nat)
    requires |m| == |m'| == MEM_SIZE && CopiedOver(m, m', dest - HEAP_START, src - HEAP_START, size)
    requires HEAP_START <= src && src + size <= HEAP_END && HEAP_START <= dest && dest + size <= HEAP_END
    requires ZeroFrom(m, dest, 0, n)
    ensures Copied(m, m', dest, src, size) && ZeroFrom(m', dest, size, n)
  {
    CopiedBytes(m, m', dest - HEAP_START, src - HEAP_START, size);
  }

  lemma CopyKeepsUnforged(m: seq<byte>, m': seq<byte>, r: seq<Block>, g: nat, j: nat, d: int, s: int, size: nat, n: nat)
    requires |m| == |m'| == MEM_SIZE && CopiedOver(m, m', d, s, size)
    requires Linked(m, r) && g < |r| && j < |r| && InHeap(r[g].addr)
    requires d == r[g].addr + HDR - HEAP_START && s == r[j].addr + HDR - HEAP_START
    requires size == r[j].size && n <= r[g].size && ZeroFrom(m, r[g].addr + HDR, 0, n)
    ensures Unforged(m, r) && size < n ==> Unforged(m', r)
  {
    hide Unforged, Load;
    if Unforged(m, r) && size < n {
      BlockInHeap(r, g);
      CopyHarmless(m, m', r, g, j, d, s, size);
    }
  }

  /** A magic number after the copy is one that was copied, or one that was there. */
  lemma WindowCopied(m: seq<byte>, m': seq<byte>, d: nat, s: nat, size: nat, k: nat)
    requires |m| == |m'| && 0 < d && d + size < |m| && s + size <= |m| && k + 4 <= |m|
    requires SameBytes(m, m', 0, d) && SameBytes(m, m', d + size, |m|)
    requires m[d - 1] == 0 && m[d + size] == 0
    requires forall t :: d <= t < d + size ==> m'[t] == m[t + s - d]
    requires MagicAt(m', k)
    ensures if d <= k && k + 3 < d + size then MagicAt(m, k + s - d) else MagicAt(m, k)
  {
    assert m'[d - 1] == 0 && m'[d + size] == 0;
    if d <= k && k + 3 < d + size {
      assert m'[k] == m[k + s - d] && m'[k + 1] == m[k + 1 + s - d] && m'[k + 2] == m[k + 2 + s - d] &&
        m'[k + 3] == m[k + 3 + s - d];
    } else {
      assert m'[k] == m[k] && m'[k + 1] == m[k + 1] && m'[k + 2] == m[k + 2] && m'[k + 3] == m[k + 3];
    }
  }

  lemma CopiedBytes(m: seq<byte>, m': seq<byte>, d: nat, s: nat, n: nat)
    requires |m| == |m'| && d + n <= |m| && s + n <= |m|
    requires forall k :: d <= k < d + n ==> m'[k] == m[k + s - d]
    ensures m'[d..d + n] == m[s..s + n]
  {
  }

  lemma PrevBelowSmall(bs: seq<Block>, i: nat)
    requires WellFormed(bs) && i < |bs|
    ensures PrevOf(bs, i) < SMALL
  {
    TilesOrdered(bs, HEAP_START, HEAP_END);
  }

  /** Freeing the old block leaves the granted one live. */
  lemma GrantStays(bs: seq<Block>, n: nat, i: nat, r: seq<Block>)
    requires WellFormed(bs) && NoAdjacentFree(bs) && FirstFit(bs, n) < |bs| && i < |bs| && i != FirstFit(bs, n)
    requires r == Freed(Allocated(bs, n), bs[i].addr) || r == Allocated(bs, n)
    ensures Granted(bs, n) in Live(r)
  {
    AllocatedLive(bs, n);
    AllocatedCanonical(bs, n);
    FreedLive(Allocated(bs, n), bs[i].addr);
    GrantPlace(bs, n, i);
  }

  lemma MovedKeeps(m: seq<byte>, m1: seq<byte>, m2: seq<byte>, m': seq<byte>, before: set<Block>, after: set<Block>)
    requires |m| == |m1| == |m2| == |m'| == MEM_SIZE
    requires PayloadsKept(m, m1, before) && PayloadsKept(m1, m2, before) && PayloadsKept(m2, m', after)
    ensures PayloadsKept(m, m', before * after)
  {
  }

  lemma CopyStays(m: seq<byte>, m1: seq<byte>, m2: seq<byte>, m': seq<byte>, before: set<Block>, after: set<Block>,
      b: Block, g: Block, n: nat)
    requires |m| == |m1| == |m2| == |m'| == MEM_SIZE && b in before && g in after
    requires HEAP_START <= b.addr && b.End() <= HEAP_END && HEAP_START <= g.addr && g.End() <= HEAP_END &&
      b.size <= g.size && n <= g.size
    requires PayloadsKept(m, m1, before) && PayloadsKept(m2, m', after)
    requires Copied(m1, m2, g.addr + HDR, b.addr + HDR, b.size) && ZeroFrom(m2, g.addr + HDR, b.size, n)
    ensures Copied(m, m', g.addr + HDR, b.addr + HDR, b.size) && ZeroFrom(m', g.addr + HDR, b.size, n)
  {
    var s, d := b.addr + HDR - HEAP_START, g.addr + HDR - HEAP_START;
    assert m1[s..s + b.size] == m[s..s + b.size];
    assert m'[d..d + b.size] == m2[d..d + b.size];
  }

  lemma HeapCanonical(m: seq<byte>, bs: seq<Block>, n: nat)
    requires |m| == MEM_SIZE && FirstFit(bs, n) < |bs| && NoAdjacentFree(bs)
    ensures NoAdjacentFree(Allocated(bs, n))
  {
  }

  /** A header that may take a new back pointer: it stands clear of those at `ps`. */
  ghost predicate NeighbourOf(m: seq<byte>, p: nat, ps: set<nat>)
    requires |m| == MEM_SIZE
  {
    InHeap(p) && Load(m, p).next < SMALL && forall q :: q in ps ==> Apart(p, q)
  }

  /** What the list says of block `i` and of the one after it. */
  lemma Surroundings(m: seq<byte>, bs: seq<Block>, i: nat)
    requires |m| == MEM_SIZE && Linked(m, bs) && i < |bs|
    ensures WellFormed(bs)
    ensures InHeap(bs[i].addr) && bs[i].End() <= HEAP_END && Load(m, bs[i].addr) == Expected(bs, i)
    ensures NextOf(bs, i) < SMALL && (NextOf(bs, i) != NULL <==> i + 1 < |bs|)
    ensures i + 1 < |bs| ==> InHeap(bs[i + 1].addr) && Apart(bs[i].addr, bs[i + 1].addr)
    ensures i + 1 < |bs| ==> bs[i + 1].addr == bs[i].End() && bs[i + 1].End() <= HEAP_END
    ensures i + 1 < |bs| ==> NeighbourOf(m, bs[i + 1].addr, {bs[i].addr})
    ensures i + 1 < |bs| && i > 0 ==> NeighbourOf(m, bs[i + 1].addr, {bs[i - 1].addr, bs[i].addr})
    ensures i + 1 < |bs| ==> forall q {:trigger Apart(bs[i + 1].addr, q)} ::
      bs[i].addr <= q && q + HDR <= bs[i].End() ==> Apart(bs[i + 1].addr, q)
  {
    assert HeaderInPlace(m, bs, i);
    TilesAdjacent(bs, HEAP_START, HEAP_END, i);
    TilesOrdered(bs, HEAP_START, HEAP_END);
    if i + 1 < |bs| {
      assert HeaderInPlace(m, bs, i + 1);
      assert i + 2 < |bs| ==> bs[i + 2].addr < HEAP_END;
    }
  }

  /** What `block` finds after it when blocks i..k of `bs` have been merged into it. */
  ghost predicate Ahead(m: seq<byte>, cur: seq<Block>, bs: seq<Block>, i: nat, k: nat, block: nat)
    requires |m| == MEM_SIZE
  {
    && InHeap(block) && i < |cur| && cur[i].addr == block && cur[i].free
    && Live(cur) == Live(bs)
    && if k < |bs| then
         && i + 1 < |cur| && cur[i + 1] == bs[k]
         && Load(m, block).next == bs[k].addr && InHeap(bs[k].addr)
         && ValidBlock(m, bs[k].addr) && (Load(m, bs[k].addr).free != 0 <==> bs[k].free)
       else Load(m, block).next == NULL
  }

  lemma LookAhead(m: seq<byte>, cur: seq<Block>, bs: seq<Block>, i: nat, k: nat)
    requires |m| == MEM_SIZE && Linked(m, cur) && i < k <= |bs| && cur == Merge(bs, i, k) && AllFree(bs, i, k)
    ensures Ahead(m, cur, bs, i, k, bs[i].addr)
  {
    MergeRest(bs, i, k);
    MergeLive(bs, i, k);
    assert HeaderInPlace(m, cur, i);
    if k < |bs| {
      assert HeaderInPlace(m, cur, i + 1);
    }
  }

  lemma LookBehind(m: seq<byte>, cur: seq<Block>, bs: seq<Block>, i: nat, k: nat)
    requires |m| == MEM_SIZE && Linked(m, cur) && i < k <= |bs| && cur == Merge(bs, i, k)
    ensures InHeap(bs[i].addr) && Load(m, bs[i].addr).prev == PrevOf(bs, i)
    ensures i > 0 ==> i <= |cur| && InHeap(bs[i - 1].addr) && cur[i - 1] == bs[i - 1]
    ensures i > 0 ==> (Load(m, bs[i - 1].addr).free != 0 <==> bs[i - 1].free)
  {
    MergeRest(bs, i, k);
    assert HeaderInPlace(m, cur, i);
    if i > 0 {
      assert HeaderInPlace(m, cur, i - 1);
    }
  }

  // ---------------------------------------------------------------- small numbers

  method EncodeWord(v: nat, n: nat) returns (s: seq<byte>)
    requires v < Pow256(n)
    ensures |s| == n && FromBytes(s) == v
    ensures v == 0 ==> forall j :: 0 <= j < n ==> s[j] == 0
    ensures v < SMALL ==> forall j :: 3 <= j < n ==> s[j] == 0
  {
    s := ToBytes(v, n);
    RoundTrip(v, n);
    Pow256Values();
    forall j | 0 <= j < n ensures (v == 0 ==> s[j] == 0) && (v < SMALL && j >= 3 ==> s[j] == 0) {
      if v == 0 { HighBytesZero(v, n, 0, j); }
      if v < SMALL && j >= 3 { HighBytesZero(v, n, 3, j); }
    }
  }

  lemma {:induction false} SmallHighByte(s: seq<byte>, j: nat)
    requires FromBytes(s) < SMALL && 3 <= j < |s|
    ensures s[j] == 0
  {
    Pow256Values();
    HighByteZero(s, 3, j);
  }

  lemma {:induction false} HighByteZero(s: seq<byte>, k: nat, j: nat)
    requires FromBytes(s) < Pow256(k) && k <= j < |s|
    ensures s[j] == 0
  {
    if k == 0 {
      if j > 0 { HighByteZero(s[1..], 0, j - 1); }
    } else {
      HighByteZero(s[1..], k - 1, j - 1);
    }
  }

  lemma SmallWritten(m: seq<byte>, m': seq<byte>, p: nat, d: nat, s: seq<byte>)
    requires |m| == MEM_SIZE && InHeap(p) && |s| == 8 && d + 8 <= HDR && Written(m, m', p, d, s)
    requires forall j :: 3 <= j < 8 ==> s[j] == 0
    requires 4 <= d
    requires m[p - HEAP_START + d - 1] <= 1 || MagicAt(m, p - HEAP_START + d - 4)
    ensures NoNewMagic(m, m', NULL)
  {
    var o := p - HEAP_START + d;
    assert forall k :: o + 3 <= k < o + 8 ==> m'[k] == m'[o..o + 8][k - o];
    SmallNumberWrite(m, m', o);
  }
}
