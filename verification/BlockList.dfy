/** The heap as a list of blocks: what kmalloc.c keeps, without the pointers and bytes. */
module BlockList {
  const NULL: nat := 0
  const HEAP_START: nat := 0x300000
  const HEAP_SIZE: nat := 2 * 1024 * 1024
  const HEAP_END: nat := HEAP_START + HEAP_SIZE
  /** sizeof(heap_block_t): packed, 4 + 8 + 1 + 8 + 8 bytes. */
  const HDR: nat := 29
  /** A block is split only when the rest can hold a header and this many bytes. */
  const MIN_PAYLOAD: nat := 16

  datatype Block = Block(addr: nat, size: nat, free: bool) {
    function End(): nat { addr + HDR + size }
  }

  // ---------------------------------------------------------------- tilings

  /** `bs` covers [lo, hi) in address order, without gap or overlap. */
  ghost predicate Tiles(bs: seq<Block>, lo: nat, hi: nat) {
    if bs == [] then lo == hi else bs[0].addr == lo && Tiles(bs[1..], bs[0].End(), hi)
  }

  ghost predicate NoAdjacentFree(bs: seq<Block>) {
    forall i, j :: 0 <= i && j == i + 1 && j < |bs| ==> !(bs[i].free && bs[j].free)
  }

  ghost predicate WellFormed(bs: seq<Block>) {
    Tiles(bs, HEAP_START, HEAP_END)
  }

  /** What holds between heap operations. */
  ghost predicate Canonical(bs: seq<Block>) {
    WellFormed(bs) && NoAdjacentFree(bs)
  }

  function Boundary(bs: seq<Block>, i: nat, hi: nat): nat {
    if i < |bs| then bs[i].addr else hi
  }

  lemma {:induction false} TilesOrdered(bs: seq<Block>, lo: nat, hi: nat)
    requires Tiles(bs, lo, hi)
    ensures lo <= hi
    ensures forall i :: 0 <= i < |bs| ==> lo <= bs[i].addr && bs[i].End() <= hi
    ensures forall i, j :: 0 <= i < j < |bs| ==> bs[i].End() <= bs[j].addr
  {
    if bs != [] {
      TilesOrdered(bs[1..], bs[0].End(), hi);
      assert forall i :: 0 < i < |bs| ==> bs[i] == bs[1..][i - 1];
    }
  }

  lemma {:induction false} TilesAdjacent(bs: seq<Block>, lo: nat, hi: nat, i: nat)
    requires Tiles(bs, lo, hi) && i < |bs|
    ensures bs[i].End() == Boundary(bs, i + 1, hi)
    ensures bs[0].addr == lo
  {
    if i > 0 {
      TilesAdjacent(bs[1..], bs[0].End(), hi, i - 1);
    }
  }

  /** Tilings compose and decompose at any block boundary. */
  lemma {:induction false} TilesConcat(a: seq<Block>, b: seq<Block>, lo: nat, mid: nat, hi: nat)
    requires Tiles(a, lo, mid)
    ensures Tiles(a + b, lo, hi) <==> Tiles(b, mid, hi)
  {
    if a == [] {
      assert a + b == b;
    } else {
      TilesConcat(a[1..], b, a[0].End(), mid, hi);
      assert (a + b)[1..] == a[1..] + b;
    }
  }

  lemma {:induction false} TilesPrefix(bs: seq<Block>, lo: nat, hi: nat, i: nat)
    requires Tiles(bs, lo, hi) && i <= |bs|
    ensures Tiles(bs[..i], lo, Boundary(bs, i, hi)) && Tiles(bs[i..], Boundary(bs, i, hi), hi)
  {
    if i == 0 {
      assert bs[0..] == bs && bs[..0] == [];
    } else {
      TilesPrefix(bs[1..], bs[0].End(), hi, i - 1);
      assert bs[1..][..i - 1] == bs[..i][1..];
      assert bs[1..][i - 1..] == bs[i..];
    }
  }

  /** Replacing blocks i..j by a list that tiles the same extent keeps a tiling. */
  lemma TilesReplace(bs: seq<Block>, lo: nat, hi: nat, i: nat, j: nat, mid: seq<Block>)
    requires Tiles(bs, lo, hi) && i <= j <= |bs|
    requires Tiles(mid, Boundary(bs, i, hi), Boundary(bs, j, hi))
    ensures Tiles(bs[..i] + mid + bs[j..], lo, hi)
  {
    TilesPrefix(bs, lo, hi, i);
    TilesPrefix(bs, lo, hi, j);
    TilesConcat(mid, bs[j..], Boundary(bs, i, hi), Boundary(bs, j, hi), hi);
    TilesConcat(bs[..i], mid + bs[j..], lo, Boundary(bs, i, hi), hi);
    assert bs[..i] + mid + bs[j..] == bs[..i] + (mid + bs[j..]);
  }

  // ---------------------------------------------------------------- canonical form

  /** The allocations outstanding in `bs`. */
  ghost function Live(bs: seq<Block>): set<Block> {
    set b | b in bs && !b.free
  }

  lemma {:induction false} LiveTail(bs: seq<Block>, lo: nat, hi: nat)
    requires Tiles(bs, lo, hi) && bs != []
    ensures Live(bs[1..]) == Live(bs) - (if bs[0].free then {} else {bs[0]})
  {
    TilesOrdered(bs, lo, hi);
    assert bs == [bs[0]] + bs[1..];
    forall b | b in bs[1..] ensures b != bs[0] {
      var k :| 0 <= k < |bs[1..]| && bs[1..][k] == b;
      assert bs[k + 1] == b;
    }
  }

  /** A free first block of `a` cannot end before a free first block of `b`. */
  lemma FreeHeadsAgree(a: seq<Block>, b: seq<Block>, lo: nat, hi: nat)
    requires Tiles(a, lo, hi) && Tiles(b, lo, hi) && NoAdjacentFree(a)
    requires a != [] && b != [] && a[0].free && b[0].free
    requires Live(a) <= Live(b)
    ensures a[0].End() >= b[0].End()
  {
    TilesOrdered(a, lo, hi);
    TilesOrdered(b, lo, hi);
    TilesAdjacent(a, lo, hi, 0);
    if |a| > 1 {
      assert a[1] in Live(a);
      var k :| 0 <= k < |b| && b[k] == a[1];
      assert k > 0;
    }
  }

  /** The block list is determined by the set of live allocations. */
  lemma {:induction false} CanonicalUniqueFrom(a: seq<Block>, b: seq<Block>, lo: nat, hi: nat)
    requires Tiles(a, lo, hi) && Tiles(b, lo, hi)
    requires NoAdjacentFree(a) && NoAdjacentFree(b)
    requires Live(a) == Live(b)
    ensures a == b
    decreases |a|
  {
    TilesOrdered(a, lo, hi);
    TilesOrdered(b, lo, hi);
    if a == [] || b == [] {
      return;
    }
    assert !a[0].free ==> a[0] in Live(a);
    assert !b[0].free ==> b[0] in Live(b);
    if a[0].free && b[0].free {
      FreeHeadsAgree(a, b, lo, hi);
      FreeHeadsAgree(b, a, lo, hi);
    }
    assert a[0] == b[0];
    LiveTail(a, lo, hi);
    LiveTail(b, lo, hi);
    CanonicalUniqueFrom(a[1..], b[1..], a[0].End(), hi);
    assert a == [a[0]] + a[1..];
    assert b == [b[0]] + b[1..];
  }

  lemma CanonicalUnique(a: seq<Block>, b: seq<Block>)
    requires Canonical(a) && Canonical(b) && Live(a) == Live(b)
    ensures a == b
  {
    CanonicalUniqueFrom(a, b, HEAP_START, HEAP_END);
  }
}
