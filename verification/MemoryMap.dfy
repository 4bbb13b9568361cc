/** The memory map, and the two searches through it: the region to manage and a place for the bitmap. */
module MemoryMap {
  const PAGE_SIZE: nat := 4096
  const TWO_MIB: nat := 0x20_0000
  const AVAILABLE: nat := 1

  datatype Entry = Entry(base: nat, length: nat, kind: nat)
  {
    function End(): nat { base + length }
  }

  // ---------------------------------------------------------------- the region to manage

  /** Entry `i` is the first of the longest available ones among the first `n`. */
  ghost predicate LongestAt(entries: seq<Entry>, n: nat, i: nat)
    requires n <= |entries|
  {
    && i < n && entries[i].kind == AVAILABLE
    && (forall k :: 0 <= k < n && entries[k].kind == AVAILABLE ==> entries[k].length <= entries[i].length)
    && (forall k :: 0 <= k < i && entries[k].kind == AVAILABLE ==> entries[k].length < entries[i].length)
  }

  /** `(base, size)` is the longest available entry; (0, 0) when none has any length. */
  ghost predicate IsLargestAvailable(entries: seq<Entry>, base: nat, size: nat) {
    if size == 0
    then base == 0 && forall k :: 0 <= k < |entries| && entries[k].kind == AVAILABLE ==> entries[k].length == 0
    else exists i: nat :: LongestAt(entries, |entries|, i) && entries[i].base == base && entries[i].length == size
  }

  method FindAvailableMemoryRegion(entries: seq<Entry>) returns (base: nat, size: nat)
    ensures IsLargestAvailable(entries, base, size)
  {
    size, base := 0, 0;
    ghost var best := 0;
    for i := 0 to |entries|
      invariant size == 0 ==>
        base == 0 && forall k :: 0 <= k < i && entries[k].kind == AVAILABLE ==> entries[k].length == 0
      invariant size > 0 ==> LongestAt(entries, i, best) && entries[best].base == base && entries[best].length == size
    {
      if entries[i].kind == AVAILABLE {
        if entries[i].length > size {
          size, base := entries[i].length, entries[i].base;
          best := i;
        }
      }
    }
  }

  const FALLBACK_BASE: nat := 0x10_0000
  const FALLBACK_SIZE: nat := 64 * 1024 * 1024

  /**
    The region that kernel_main manages: the longest available entry, unless it starts at 0 or is shorter than 2
    MiB.
   */
  ghost predicate IsChosenRegion(entries: seq<Entry>, base: nat, size: nat) {
    || (base != 0 && size >= 0x20_0000 && IsLargestAvailable(entries, base, size))
    || (base == 0x10_0000 && size == 0x400_0000
        && forall b: nat, s: nat :: IsLargestAvailable(entries, b, s) ==> b == 0 || s < TWO_MIB)
  }

  method ChooseRegion(entries: seq<Entry>) returns (base: nat, size: nat)
    ensures IsChosenRegion(entries, base, size)
  {
    base, size := FindAvailableMemoryRegion(entries);
    if base == 0 || size < TWO_MIB {
      LargestUnique(entries, base, size);
      base := FALLBACK_BASE;
      size := FALLBACK_SIZE;
    }
  }

  /** There is one longest available entry: the first of them. */
  lemma LargestUnique(entries: seq<Entry>, base: nat, size: nat)
    requires IsLargestAvailable(entries, base, size)
    ensures forall b: nat, s: nat :: IsLargestAvailable(entries, b, s) ==> b == base && s == size
  {
    forall b: nat, s: nat | IsLargestAvailable(entries, b, s) ensures b == base && s == size {
      if size > 0 && s > 0 {
        var i: nat :| LongestAt(entries, |entries|, i) && entries[i].base == base && entries[i].length == size;
        var j: nat :| LongestAt(entries, |entries|, j) && entries[j].base == b && entries[j].length == s;
        assert i == j;
      }
    }
  }

  // ---------------------------------------------------------------- a place for the bitmap

  /** What is left of an entry at or above 2 MiB. */
  function Above2MiB(e: Entry): Entry {
    if e.base >= TWO_MIB then e
    else if e.length > TWO_MIB - e.base then Entry(TWO_MIB, e.length - (TWO_MIB - e.base), e.kind)
    else Entry(TWO_MIB, 0, e.kind)
  }

  /** Room for the bitmap with a page to spare on either side. */
  predicate Suits(e: Entry, bytes: nat) {
    e.kind == AVAILABLE && Above2MiB(e).length >= bytes + 2 * PAGE_SIZE
  }

  function FirstSuiting(entries: seq<Entry>, bytes: nat): (i: nat)
    ensures i <= |entries|
    ensures i < |entries| ==> Suits(entries[i], bytes)
    ensures forall k :: 0 <= k < i ==> !Suits(entries[k], bytes)
  {
    if entries == [] || Suits(entries[0], bytes) then 0 else 1 + FirstSuiting(entries[1..], bytes)
  }

  function BitmapLocation(entries: seq<Entry>, bytes: nat): nat {
    var i := FirstSuiting(entries, bytes);
    if i < |entries| then Above2MiB(entries[i]).base + PAGE_SIZE else TWO_MIB
  }

  method FindBitmapLocation(entries: seq<Entry>, bytes: nat) returns (addr: nat)
    ensures addr == BitmapLocation(entries, bytes)
  {
    for i := 0 to |entries|
      invariant forall k :: 0 <= k < i ==> !Suits(entries[k], bytes)
    {
      if entries[i].kind == AVAILABLE {
        var base := entries[i].base;
        var length := entries[i].length;
        if base < TWO_MIB {
          if length > TWO_MIB - base {
            base := TWO_MIB;
            length := length - (TWO_MIB - entries[i].base);
          } else {
            continue;
          }
        }
        if length >= bytes + 2 * PAGE_SIZE {
          return base + PAGE_SIZE;
        }
      }
    }
    return TWO_MIB;
  }
}
