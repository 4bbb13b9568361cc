/** The physical memory manager of memory.c: a bitmap updated word by word, and a counter beside it. */
module Pmm {
  import opened BitOps
  import opened Bitmap
  import opened MemoryMap
  import opened PmmSpec
  import PmmInit

  datatype Stats = Stats(totalFrames: nat, usedFrames: nat, freeFrames: nat, reservedFrames: nat,
                         totalBytes: nat, usedBytes: nat, freeBytes: nat, usagePercent: nat)

  class FrameAllocator {
    var bitmap: array<bv32>
    var bitmapAddr: nat
    var bitmapSize: nat
    var totalFrames: nat
    var usedFrames: nat
    var reservedFrames: nat
    var memoryBase: nat
    var memorySize: nat

    ghost predicate Valid()
      reads this, bitmap
    {
      && memoryBase < TWO64 && memorySize < TWO64
      && totalFrames == memorySize / PAGE_SIZE
      && bitmapSize == (totalFrames + 31) / 32
      && bitmap.Length == bitmapSize
    }

    ghost function State(): (s: PmmSpec.State)
      reads this, bitmap
      ensures Valid() ==> s.Ok() && s.Total() == totalFrames
    {
      PmmSpec.State(memoryBase, memorySize, bitmap[..], usedFrames)
    }

    // ---------------------------------------------------------------- single frames

    method TestFrame(frameIndex: nat) returns (used: bool)
      requires Valid()
      ensures used == PmmSpec.TestFrame(State(), frameIndex)
    {
      hide Bit, OrMask, AndNotMask, BitOf;
      if frameIndex >= totalFrames { return true; }
      var index := frameIndex / 32;
      var bit := BitOf(frameIndex);
      var word := bitmap[index];
      TestOp(word, bit);
      used := word & (1 << bit) != 0;
      assert used == Bit(word, bit);
    }

    method SetFrame(frameIndex: nat)
      requires Valid()
      modifies bitmap
      ensures Valid()
      ensures bitmap[..]
        == if frameIndex < totalFrames then Bitmap.SetFrame(old(bitmap[..]), frameIndex) else old(bitmap[..])
    {
      hide Bit, OrMask, AndNotMask, BitOf;
      if frameIndex >= totalFrames { return; }
      var index := frameIndex / 32;
      var bit := BitOf(frameIndex);
      SetOp(bitmap[index], bit);
      bitmap[index] := bitmap[index] | (1 << bit);
    }

    method ClearFrame(frameIndex: nat)
      requires Valid()
      modifies bitmap
      ensures Valid()
      ensures bitmap[..]
        == if frameIndex < totalFrames then Bitmap.ClearFrame(old(bitmap[..]), frameIndex) else old(bitmap[..])
    {
      hide Bit, OrMask, AndNotMask, BitOf;
      if frameIndex >= totalFrames { return; }
      var index := frameIndex / 32;
      var bit := BitOf(frameIndex);
      ClearOp(bitmap[index], bit);
      bitmap[index] := bitmap[index] & !(1 << bit);
    }

    // ---------------------------------------------------------------- searching

    method FindContiguousFrames(count: nat) returns (r: int)
      requires Valid()
      ensures IsFirstRun(State(), count, r)
    {
      hide Bitmap.IsSet;
      if count == 0 { return -1; }
      if count == 1 {
        for i := 0 to totalFrames
          invariant forall f: nat :: f < i ==> PmmSpec.TestFrame(State(), f)
        {
          var used := TestFrame(i);
          if !used {
            assert forall st: nat :: st < i && RunFree(State(), st, 1) ==> !PmmSpec.TestFrame(State(), st);
            return i;
          }
        }
        assert forall st: nat :: RunFree(State(), st, 1) ==> st < totalFrames && !PmmSpec.TestFrame(State(), st);
        return -1;
      }
      var contiguous, start := 0, 0;
      for i := 0 to totalFrames
        invariant contiguous < count && contiguous <= i
        invariant contiguous > 0 ==> start == i - contiguous
        invariant forall f: nat :: i - contiguous <= f < i ==> !PmmSpec.TestFrame(State(), f)
        invariant contiguous < i ==> PmmSpec.TestFrame(State(), i - contiguous - 1)
        invariant forall st: nat :: st + count <= i ==> !RunFree(State(), st, count)
      {
        var used := TestFrame(i);
        if !used {
          if contiguous == 0 { start := i; }
          contiguous := contiguous + 1;
          if contiguous == count {
            EarlierRunsBlocked(State(), start, count, i);
            return start;
          }
        } else {
          contiguous := 0;
        }
        RunEndingAt(State(), count, i, contiguous);
      }
      return -1;
    }

    // ---------------------------------------------------------------- allocating

    method AllocFrame() returns (addr: nat)
      requires Valid()
      modifies this`usedFrames, bitmap
      ensures Valid() && AllocOutcome(old(State()), State(), 1, addr)
    {
      hide Bitmap.SetFrame, Bitmap.IsSet;
      var frameIndex := FindContiguousFrames(1);
      ghost var s := State();
      if frameIndex < 0 {
        assert OutcomeAt(s, s, 1, 0, frameIndex);
        return 0;
      }
      SetRunOne(bitmap[..], frameIndex);
      SetFrame(frameIndex);
      usedFrames := usedFrames + 1;
      addr := (memoryBase + frameIndex * PAGE_SIZE) % TWO64;
      assert OutcomeAt(s, State(), 1, addr, frameIndex);
    }

    method AllocFrames(count: nat) returns (addr: nat)
      requires Valid()
      modifies this`usedFrames, bitmap
      ensures Valid() && AllocOutcome(old(State()), State(), count, addr)
    {
      hide Bitmap.SetFrame, Bitmap.IsSet;
      ghost var s := State();
      if count == 0 {
        assert OutcomeAt(s, s, count, 0, -1);
        return 0;
      }
      var startFrame := FindContiguousFrames(count);
      if startFrame < 0 {
        assert OutcomeAt(s, s, count, 0, startFrame);
        return 0;
      }
      SetRunFrames(startFrame, count);
      usedFrames := usedFrames + count;
      addr := (memoryBase + startFrame * PAGE_SIZE) % TWO64;
      assert OutcomeAt(s, State(), count, addr, startFrame);
    }

    /** The marking loop of pmm_alloc_frames. */
    method SetRunFrames(startFrame: nat, count: nat)
      requires Valid() && startFrame + count <= totalFrames
      modifies bitmap
      ensures Valid() && bitmap[..] == SetRun(old(bitmap[..]), startFrame, count)
    {
      hide Bitmap.SetFrame;
      for i := 0 to count
        invariant Valid() && bitmap[..] == SetRun(old(bitmap[..]), startFrame, i)
      {
        SetFrame(startFrame + i);
      }
    }

    // ---------------------------------------------------------------- freeing

    /** What freeing does to one frame index. */
    method ReleaseFrame(frameIndex: nat)
      requires Valid()
      modifies this`usedFrames, bitmap
      ensures Valid() && State() == PmmSpec.ReleaseFrame(old(State()), frameIndex)
    {
      hide Bitmap.ClearFrame, Bitmap.IsSet;
      var used := TestFrame(frameIndex);
      if frameIndex < totalFrames && used {
        ClearFrame(frameIndex);
        if usedFrames > 0 {
          usedFrames := usedFrames - 1;
        }
      }
    }

    method FreeFrame(frameAddr: nat)
      requires Valid()
      modifies this`usedFrames, bitmap
      ensures Valid() && State() == PmmSpec.FreeFrame(old(State()), frameAddr)
    {
      hide PmmSpec.ReleaseFrame;
      if frameAddr < memoryBase || frameAddr >= (memoryBase + memorySize) % TWO64 { return; }
      var frameIndex := (frameAddr - memoryBase) / PAGE_SIZE;
      ReleaseFrame(frameIndex);
    }

    method FreeFrames(startAddr: nat, count: nat)
      requires Valid()
      modifies this`usedFrames, bitmap
      ensures Valid() && State() == PmmSpec.FreeFrames(old(State()), startAddr, count)
    {
      hide PmmSpec.ReleaseFrame;
      if count == 0 { return; }
      if startAddr < memoryBase || startAddr >= (memoryBase + memorySize) % TWO64 { return; }
      var startFrame := (startAddr - memoryBase) / PAGE_SIZE;
      for i := 0 to count
        invariant Valid() && State() == ReleaseRun(old(State()), startFrame, i)
      {
        ReleaseFrame(startFrame + i);
      }
    }

    // ---------------------------------------------------------------- statistics

    method GetStats() returns (stats: Stats)
      requires Valid()
      ensures stats.totalFrames == totalFrames && stats.usedFrames == usedFrames
      ensures stats.reservedFrames == reservedFrames
      ensures stats.totalBytes == totalFrames * PAGE_SIZE && stats.usedBytes == usedFrames * PAGE_SIZE % TWO64
      ensures stats.freeFrames == (totalFrames - usedFrames) % TWO64
      ensures stats.freeBytes == stats.freeFrames * PAGE_SIZE % TWO64
      ensures stats.usagePercent == Percent(usedFrames, totalFrames)
      ensures usedFrames == |Used(State())| ==>
        && stats.usedFrames + stats.freeFrames == stats.totalFrames
        && stats.usedBytes + stats.freeBytes == stats.totalBytes
        && IsPercent(stats.usagePercent, usedFrames, totalFrames) && stats.usagePercent <= 100
        && (stats.usagePercent == 100 <==> stats.freeFrames == 0 && totalFrames > 0)
    {
      hide UsedSet, IsPercent, Percent, IsSet;
      UsedBounded(bitmap[..], totalFrames);
      if usedFrames == |Used(State())| {
        TotalBound(memorySize);
        PercentBounds(usedFrames, totalFrames);
        Balance(usedFrames, totalFrames);
      }
      var percent := Percent(usedFrames, totalFrames);
      var freeFrames := (totalFrames - usedFrames) % TWO64;
      stats := Stats(totalFrames, usedFrames, freeFrames, reservedFrames, totalFrames * PAGE_SIZE,
                     usedFrames * PAGE_SIZE % TWO64, freeFrames * PAGE_SIZE % TWO64, percent);
    }

    // ---------------------------------------------------------------- initialising

    method ClearBitmap()
      requires Valid()
      modifies bitmap
      ensures Valid() && forall k :: 0 <= k < bitmapSize ==> bitmap[k] == 0
    {
      for i := 0 to bitmapSize
        invariant forall k :: 0 <= k < i ==> bitmap[k] == 0
      {
        bitmap[i] := 0;
      }
    }

    method ClaimFrame(frame: nat)
      requires Valid()
      modifies this`usedFrames, bitmap
      ensures Valid() && State() == PmmInit.ClaimFrame(old(State()), frame)
    {
      hide Bitmap.SetFrame, Bitmap.IsSet;
      var used := TestFrame(frame);
      if !used {
        SetFrame(frame);
        usedFrames := usedFrames + 1;
      }
    }

    method MarkEntry(e: Entry)
      requires Valid()
      modifies this`usedFrames, bitmap
      ensures Valid() && State() == PmmInit.MarkEntry(old(State()), e)
    {
      hide Bitmap.SetFrame, PmmInit.PagesOf;
      if e.kind != AVAILABLE {
        if e.base >= memoryBase && e.base < (memoryBase + memorySize) % TWO64 {
          var startFrame := (e.base - memoryBase) / PAGE_SIZE;
          var endFrame := startFrame + PmmInit.PagesOf(e.length);
          if endFrame > totalFrames {
            endFrame := totalFrames;
          }
          if startFrame < endFrame {
            MarkRange(startFrame, endFrame);
          }
        }
      }
    }

    /** The marking loop over one reserved entry: it counts every frame, marked before or not. */
    method MarkRange(startFrame: nat, endFrame: nat)
      requires Valid() && startFrame <= endFrame <= totalFrames
      modifies this`usedFrames, bitmap
      ensures Valid() && bitmap[..] == SetRun(old(bitmap[..]), startFrame, endFrame - startFrame)
      ensures usedFrames == old(usedFrames) + (endFrame - startFrame)
    {
      hide Bitmap.SetFrame;
      for frame := startFrame to endFrame
        invariant Valid() && bitmap[..] == SetRun(old(bitmap[..]), startFrame, frame - startFrame)
        invariant usedFrames == old(usedFrames) + (frame - startFrame)
      {
        SetFrame(frame);
        usedFrames := usedFrames + 1;
      }
    }

    method MarkReserved(entries: seq<Entry>)
      requires Valid()
      modifies this`usedFrames, bitmap
      ensures Valid() && State() == PmmInit.MarkEntries(old(State()), entries)
    {
      hide PmmInit.MarkEntry;
      for i := 0 to |entries|
        invariant Valid() && State() == PmmInit.MarkEntries(old(State()), entries[..i])
      {
        assert entries[..i + 1][..i] == entries[..i];
        MarkEntry(entries[i]);
      }
      assert entries[..|entries|] == entries;
    }

    method MarkBitmap(bitmapStartFrame: nat, bitmapFrames: nat)
      requires Valid()
      modifies this`usedFrames, bitmap
      ensures Valid() && State() == PmmInit.ClaimRun(old(State()), bitmapStartFrame, bitmapFrames)
    {
      hide PmmInit.ClaimFrame;
      for i := 0 to bitmapFrames
        invariant Valid() && State() == PmmInit.ClaimRun(old(State()), bitmapStartFrame, i)
      {
        var frame := bitmapStartFrame + i;
        ClaimUnmanaged(State(), frame);
        if frame < totalFrames {
          ClaimFrame(frame);
        }
      }
    }

    method MarkKernel(kernelFrames: nat)
      requires Valid()
      modifies this`usedFrames, bitmap
      ensures Valid() && State() == PmmInit.ClaimRun(old(State()), 0, PmmInit.Min(kernelFrames, totalFrames))
    {
      hide PmmInit.ClaimFrame;
      var i := 0;
      while i < kernelFrames && i < totalFrames
        invariant i <= PmmInit.Min(kernelFrames, totalFrames)
        invariant Valid() && State() == PmmInit.ClaimRun(old(State()), 0, i)
        decreases kernelFrames - i
      {
        ClaimFrame(i);
        i := i + 1;
      }
    }

    constructor Init(base: nat, size: nat, entries: seq<Entry>)
      requires base < TWO64 && size < TWO64
      ensures Valid() && State() == PmmInit.Init(base, size, entries)
      ensures bitmapAddr == BitmapLocation(entries, PmmInit.BitmapBytes(size))
      ensures reservedFrames == PmmInit.PagesOf(PmmInit.BitmapBytes(size)) + 0x20_0000 / PAGE_SIZE
      ensures fresh(bitmap)
    {
      hide PmmInit.ClaimRun, PmmInit.MarkEntries, BitmapLocation, PmmInit.PagesOf, PmmInit.BitmapFrame;
      memoryBase, memorySize := base, size;
      totalFrames := size / PAGE_SIZE;
      usedFrames, reservedFrames := 0, 0;
      bitmapSize := (size / PAGE_SIZE + 31) / 32;
      bitmap := new bv32[(size / PAGE_SIZE + 31) / 32];
      new;
      var bitmapBytes := bitmapSize * 4;
      bitmapAddr := FindBitmapLocation(entries, bitmapBytes);
      ClearBitmap();
      assert bitmap[..] == PmmInit.Empty(base, size).words;
      MarkReserved(entries);
      var bitmapStartFrame := PmmInit.BitmapFrame(bitmapAddr, memoryBase);
      var bitmapFrames := PmmInit.PagesOf(bitmapBytes);
      MarkBitmap(bitmapStartFrame, bitmapFrames);
      reservedFrames := reservedFrames + bitmapFrames;
      var kernelFrames := (0x10_0000 + 0x10_0000) / PAGE_SIZE;
      MarkKernel(kernelFrames);
      reservedFrames := reservedFrames + kernelFrames;
    }
  }

  lemma ClaimUnmanaged(s: PmmSpec.State, f: nat)
    requires s.Ok()
    ensures f >= s.Total() ==> PmmInit.ClaimFrame(s, f) == s
  {
  }

  /** What an allocation of `count` frames may do: fail only when no run is free, and else grant the first. */
  ghost predicate AllocOutcome(s: PmmSpec.State, s': PmmSpec.State, count: nat, addr: nat)
    requires s.Ok()
  {
    exists r: int :: OutcomeAt(s, s', count, addr, r)
  }

  ghost predicate OutcomeAt(s: PmmSpec.State, s': PmmSpec.State, count: nat, addr: nat, r: int)
    requires s.Ok()
  {
    && IsFirstRun(s, count, r)
    && if r < 0 then s' == s && addr == 0
       else s' == Granted(s, r, count) && addr == AddrOf(s, r)
  }

  // ---------------------------------------------------------------- what the loops need

  lemma SetRunOne(ws: seq<bv32>, f: nat)
    requires f < 32 * |ws|
    ensures SetRun(ws, f, 1) == SetFrame(ws, f)
  {
    assert SetRun(ws, f, 0) == ws;
  }

  /**
    A run ending just past frame `i` is blocked by the used frame before the free ones, if there are too few of
    these.
   */
  lemma RunEndingAt(s: PmmSpec.State, count: nat, i: nat, contiguous: nat)
    requires s.Ok() && contiguous < count && contiguous <= i + 1
    requires contiguous < i + 1 ==> PmmSpec.TestFrame(s, i - contiguous)
    ensures forall st: nat :: st + count == i + 1 ==> !RunFree(s, st, count)
  {
    forall st: nat | st + count == i + 1 ensures !RunFree(s, st, count) {
      assert st <= i - contiguous < st + count;
    }
  }

  lemma EarlierRunsBlocked(s: PmmSpec.State, start: nat, count: nat, i: nat)
    requires s.Ok() && i < s.Total() && start + count == i + 1
    requires forall f: nat :: start <= f <= i ==> !PmmSpec.TestFrame(s, f)
    requires forall st: nat :: st + count <= i ==> !RunFree(s, st, count)
    ensures RunFree(s, start, count) && forall st: nat :: st < start ==> !RunFree(s, st, count)
  {
  }

  lemma QuotientBounds(a: nat, t: nat, b: nat)
    requires t > 0
    ensures a < (b + 1) * t ==> a / t <= b
    ensures a >= b * t ==> a / t >= b
    ensures a < b * t ==> a / t < b
  {
    var q := a / t;
    assert a == q * t + a % t;
    assert q >= b + 1 ==> q * t >= (b + 1) * t;
    assert q + 1 <= b ==> (q + 1) * t <= b * t;
    assert q >= b ==> q * t >= b * t;
  }

  /** `p` is the percentage of `used` in `total`, rounded down; 0 of nothing. */
  predicate IsPercent(p: nat, used: nat, total: nat) {
    if total == 0 then p == 0 else p * total <= used * 100 < (p + 1) * total
  }

  /** The product is taken in 64 bits, and the quotient stored in 32. */
  function Percent(used: nat, total: nat): nat {
    if total > 0 then used * 100 % TWO64 / total % TWO32 else 0
  }

  lemma PercentBounds(used: nat, total: nat)
    requires used <= total < TWO64 / PAGE_SIZE
    ensures var p := Percent(used, total);
      IsPercent(p, used, total) && p <= 100 && (p == 100 <==> total > 0 && used == total)
  {
    if total > 0 {
      QuotientBounds(used * 100, total, 100);
      SmallPercent(used, total, used * 100 / total);
      assert used * 100 == (used * 100 / total) * total + used * 100 % total;
    }
  }

  lemma SmallPercent(used: nat, total: nat, q: nat)
    requires used < TWO64 / PAGE_SIZE && total > 0 && q == used * 100 / total <= 100
    ensures Percent(used, total) == q
  {
    assert used * 100 % TWO64 == used * 100;
  }

  lemma TotalBound(size: nat)
    requires size < TWO64
    ensures size / PAGE_SIZE < TWO64 / PAGE_SIZE
  {
  }

  /** With no more used frames than there are, nothing wraps and the statistics balance. */
  lemma Balance(used: nat, total: nat)
    requires used <= total < TWO64 / PAGE_SIZE
    ensures (total - used) % TWO64 == total - used
    ensures used * PAGE_SIZE % TWO64 + (total - used) * PAGE_SIZE % TWO64 == total * PAGE_SIZE
  {
  }
}
