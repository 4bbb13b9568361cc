/** What the frame allocator marks and releases, in addresses and bytes. */
module PmmBytes {
  import opened BitOps
  import opened Bitmap
  import opened MemoryMap
  import opened PmmSpec
  import opened PmmInit
  import opened PmmTheorems

  // ---------------------------------------------------------------- initialisation

  /** The first 2 MiB of the region are never handed out. */
  lemma KernelAreaUsed(base: nat, size: nat, entries: seq<Entry>, f: nat)
    requires f < size / PAGE_SIZE && f * PAGE_SIZE < 0x20_0000
    ensures f in Used(Init(base, size, entries))
  {
    hide Init, Used;
    InitUsed(base, size, entries, f);
  }

  /** The entry is reserved and starts inside the region. */
  predicate ReservedIn(base: nat, size: nat, e: Entry) {
    e.kind != 1 && base <= e.base < base + size
  }

  /**
    A reserved entry that starts in the region reserves the managed frames that it shares a byte with, except that a
    last frame into which it straddles, because it does not start a page, is missed.
   */
  lemma ReservedExactly(base: nat, size: nat, e: Entry, f: nat)
    requires base + size < TWO64 && ReservedIn(base, size, e) && e.length + PAGE_SIZE <= TWO64
    requires f < size / PAGE_SIZE
    ensures var next := (e.base - base) / PAGE_SIZE + (e.length + PAGE_SIZE - 1) / PAGE_SIZE;
      f in ReservedFrames(Empty(base, size), e) <==>
        e.length > 0 && Touches(base, f, e.base, e.length) && f != next
  {
    hide ReservedFrames, Touches, Empty;
    ReservedRange(base, size, e, f);
    if e.length > 0 {
      FrameAtOrAbove(e.base, base);
      TouchedFrames(base, e.base, e.length, f);
    }
  }

  lemma ReservedRange(base: nat, size: nat, e: Entry, f: nat)
    requires base + size < TWO64 && ReservedIn(base, size, e) && e.length + PAGE_SIZE <= TWO64
    requires f < size / PAGE_SIZE
    ensures var first := (e.base - base) / PAGE_SIZE;
      f in ReservedFrames(Empty(base, size), e) <==> first <= f < first + (e.length + PAGE_SIZE - 1) / PAGE_SIZE
  {
    RegionEnds(Empty(base, size));
    PagesSmall(e.length);
    hide PagesOf, RegionEnd, Frames;
  }

  lemma PagesSmall(length: nat)
    requires length + PAGE_SIZE <= TWO64
    ensures PagesOf(length) == (length + PAGE_SIZE - 1) / PAGE_SIZE
  {
  }

  lemma FrameAtOrAbove(addr: nat, base: nat)
    requires base <= addr < TWO64
    ensures BitmapFrame(addr, base) == (addr - base) / PAGE_SIZE
  {
  }

  /** One that starts a page, in a region that does, reserves exactly the managed frames it shares a byte with. */
  lemma ReservedInBytes(base: nat, size: nat, e: Entry, f: nat)
    requires base + size < TWO64 && ReservedIn(base, size, e) && e.length + PAGE_SIZE <= TWO64
    requires base % PAGE_SIZE == 0 && e.base % PAGE_SIZE == 0 && f < size / PAGE_SIZE
    ensures f in ReservedFrames(Empty(base, size), e) <==> Touches(base, f, e.base, e.length)
  {
    hide ReservedFrames;
    ReservedExactly(base, size, e, f);
    AlignedTouch(base, e.base, e.length, f);
  }

  lemma AlignedTouch(base: nat, addr: nat, bytes: nat, f: nat)
    requires base % PAGE_SIZE == 0 && addr % PAGE_SIZE == 0 && base <= addr
    ensures Touches(base, f, addr, bytes) ==>
      bytes > 0 && f != (addr - base) / PAGE_SIZE + (bytes + PAGE_SIZE - 1) / PAGE_SIZE
  {
  }

  /** An entry that is available or starts elsewhere reserves nothing. */
  lemma ReservedNowhere(base: nat, size: nat, e: Entry)
    requires base + size < TWO64 && !ReservedIn(base, size, e)
    ensures ReservedFrames(Empty(base, size), e) == {}
  {
    RegionEnds(Empty(base, size));
  }

  /** The reserved entries that start in the region start a page. */
  ghost predicate ReservedAligned(base: nat, size: nat, entries: seq<Entry>) {
    forall i :: 0 <= i < |entries| && ReservedIn(base, size, entries[i]) ==>
      entries[i].base % PAGE_SIZE == 0 && entries[i].length + PAGE_SIZE <= TWO64
  }

  ghost predicate TouchedByReserved(base: nat, size: nat, entries: seq<Entry>, f: nat) {
    exists i :: 0 <= i < |entries| && ReservedIn(base, size, entries[i])
                && Touches(base, f, entries[i].base, entries[i].length)
  }

  lemma AllReservedInBytes(base: nat, size: nat, entries: seq<Entry>, f: nat)
    requires base + size < TWO64 && base % PAGE_SIZE == 0 && f < size / PAGE_SIZE
    requires ReservedAligned(base, size, entries)
    ensures f in AllReserved(Empty(base, size), entries) <==> TouchedByReserved(base, size, entries, f)
  {
    hide ReservedFrames, Touches, ReservedIn, Empty;
    forall i | 0 <= i < |entries|
      ensures f in ReservedFrames(Empty(base, size), entries[i]) <==>
        ReservedIn(base, size, entries[i]) && Touches(base, f, entries[i].base, entries[i].length)
    {
      if ReservedIn(base, size, entries[i]) {
        ReservedInBytes(base, size, entries[i], f);
      } else {
        ReservedNowhere(base, size, entries[i]);
      }
    }
  }

  lemma BitmapPages(base: nat, addr: nat, size: nat, f: nat)
    requires base % PAGE_SIZE == 0 && addr % PAGE_SIZE == 0 && base <= addr < TWO64
    requires size <= TWO64 && f < size / PAGE_SIZE
    ensures var first, bytes := BitmapFrame(addr, base), BitmapBytes(size);
      first <= f < first + PagesOf(bytes) <==> Touches(base, f, addr, bytes)
  {
    hide BitmapBytes, BitmapFrame, PagesOf, Touches;
    NoFramesNoBytes(size);
    BitmapBytesBound(size);
    TouchedFrames(base, addr, BitmapBytes(size), f);
    AlignedFits(base, addr, BitmapBytes(size));
  }

  /**
    In the region that kernel_main settles on, with entries that start a page: a managed frame is marked if and only
    if it lies in the first 2 MiB of the region or shares a byte with the bitmap or with a reserved entry.
   */
  lemma InitInBytes(base: nat, size: nat, entries: seq<Entry>, f: nat)
    requires PageAligned(entries) && DisjointEntries(entries) && EndBelowTop(entries)
    requires IsChosenRegion(entries, base, size) && base + size < TWO64 && ReservedAligned(base, size, entries)
    ensures f in Used(Init(base, size, entries)) <==>
      && f < size / PAGE_SIZE
      && (f * PAGE_SIZE < 0x20_0000
          || Touches(base, f, BitmapLocation(entries, BitmapBytes(size)), BitmapBytes(size))
          || TouchedByReserved(base, size, entries, f))
  {
    hide Init, Used, BitmapBytes, BitmapFrame, PagesOf, AllReserved, BitmapLocation, Touches, TouchedByReserved;
    hide PageAligned, EndBelowTop, ReservedAligned, DisjointEntries;
    var bytes := BitmapBytes(size);
    var addr := BitmapLocation(entries, bytes);
    InitUsed(base, size, entries, f);
    LocationAligned(entries, bytes);
    LocationBelowTop(entries, size);
    ChosenRegionAligned(entries, base, size);
    if f < size / PAGE_SIZE {
      AllReservedInBytes(base, size, entries, f);
      if addr < base {
        BelowIsUnmarked(addr, base, size);
        BelowIsClear(entries, base, size);
        ClearIsUntouched(base, f, addr, bytes);
      } else {
        BitmapPages(base, addr, size, f);
      }
    }
  }

  lemma ClearIsUntouched(base: nat, f: nat, addr: nat, bytes: nat)
    requires addr + bytes <= base
    ensures !Touches(base, f, addr, bytes)
  {
  }

  // ---------------------------------------------------------------- the place of the bitmap

  function Max(a: nat, b: nat): nat {
    if a < b then b else a
  }

  /** Between 2 MiB and its end the entry has room for the bitmap and two pages. */
  predicate HasRoom(e: Entry, bytes: nat) {
    e.kind == 1 && Max(e.base, 0x20_0000) + bytes + 0x2000 <= e.base + e.length
  }

  /** The bitmap has a bit for each frame, and fewer than 32 to spare. */
  lemma BitmapBits(size: nat)
    ensures size / 4096 <= 8 * BitmapBytes(size) < size / 4096 + 32
  {
  }

  /** The bitmap starts one page into the first entry with room, above 2 MiB, and else at 2 MiB. */
  lemma LocationInBytes(entries: seq<Entry>, bytes: nat)
    ensures var addr := BitmapLocation(entries, bytes);
      || (addr == 0x20_0000 && forall k :: 0 <= k < |entries| ==> !HasRoom(entries[k], bytes))
      || exists i: nat :: FirstRoom(entries, bytes, i) && addr == Max(entries[i].base, 0x20_0000) + 0x1000
  {
    var i := FirstSuiting(entries, bytes);
    assert forall k :: 0 <= k < |entries| ==> (Suits(entries[k], bytes) <==> HasRoom(entries[k], bytes));
    assert i < |entries| ==> FirstRoom(entries, bytes, i);
  }

  ghost predicate FirstRoom(entries: seq<Entry>, bytes: nat, i: nat) {
    && i < |entries| && HasRoom(entries[i], bytes)
    && forall k :: 0 <= k < i ==> !HasRoom(entries[k], bytes)
  }

  // ---------------------------------------------------------------- releasing

  /** pmm_free_frame releases the frame that holds the address, and no other. */
  lemma FreeFrameInBytes(s: State, addr: nat, f: nat)
    requires s.Ok() && s.base + s.size < TWO64
    ensures f in Used(FreeFrame(s, addr)) <==>
      f in Used(s) && !(s.base + f * PAGE_SIZE <= addr < s.base + (f + 1) * PAGE_SIZE)
  {
    hide Used, ReleaseFrame;
    RegionEnds(s);
    UsedBelowTotal(s, f);
    if InRegion(s, addr) { ReleaseFrameUsed(s, FrameOf(s, addr)); }
  }

  /** pmm_free_frames releases the frames that hold the address or one of the pages after it, and no others. */
  lemma FreeFramesInBytes(s: State, addr: nat, count: nat, f: nat)
    requires s.Ok() && s.base + s.size < TWO64 && s.base <= addr < s.base + s.size && count > 0
    ensures f in Used(FreeFrames(s, addr, count)) <==>
      f in Used(s) && !(addr < s.base + (f + 1) * PAGE_SIZE && s.base + f * PAGE_SIZE <= addr + (count - 1) * PAGE_SIZE)
  {
    hide Used, ReleaseRun;
    RegionEnds(s);
    ReleaseRunMember(s, FrameOf(s, addr), count, f);
  }
}
