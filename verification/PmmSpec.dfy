/** The physical memory manager's state and operations, on the words of its bitmap. */
module PmmSpec {
  import opened BitOps
  import opened Bitmap
  import opened MemoryMap

  datatype State = State(base: nat, size: nat, words: seq<bv32>, used: nat)
  {
    /** memory_size / PAGE_SIZE: a partial last page is not managed. */
    function Total(): nat { size / PAGE_SIZE }

    predicate Ok() { |words| == (Total() + 31) / 32 }
  }

  ghost function Used(s: State): set<nat>
    requires s.Ok()
  {
    UsedSet(s.words, s.Total())
  }

  /** pmm_test_frame: frames beyond the end count as used. */
  predicate TestFrame(s: State, f: nat)
    requires s.Ok()
  {
    f >= s.Total() || IsSet(s.words, f)
  }

  // ---------------------------------------------------------------- searching

  /** `count` frames from `start` on are managed and free. */
  ghost predicate RunFree(s: State, start: nat, count: nat)
    requires s.Ok()
  {
    start + count <= s.Total() && forall f: nat :: start <= f < start + count ==> !TestFrame(s, f)
  }

  /** The result of a first-fit search: -1 or the least start of a free run. */
  ghost predicate IsFirstRun(s: State, count: nat, r: int)
    requires s.Ok()
  {
    if r < 0 then r == -1 && forall st: nat :: !(count > 0 && RunFree(s, st, count))
    else count > 0 && RunFree(s, r, count) && forall st: nat :: st < r ==> !RunFree(s, st, count)
  }

  lemma FirstRunUnique(s: State, count: nat, r: int, r': int)
    requires s.Ok() && IsFirstRun(s, count, r) && IsFirstRun(s, count, r')
    ensures r == r'
  {
  }

  // ---------------------------------------------------------------- operations

  function SetRun(ws: seq<bv32>, start: nat, count: nat): (r: seq<bv32>)
    requires start + count <= 32 * |ws|
    ensures |r| == |ws|
  {
    if count == 0 then ws else SetFrame(SetRun(ws, start, count - 1), start + count - 1)
  }

  /** The state after granting the `count` frames from `start` on. */
  function Granted(s: State, start: nat, count: nat): (r: State)
    requires s.Ok() && start + count <= s.Total()
    ensures r.Ok()
  {
    s.(words := SetRun(s.words, start, count), used := s.used + count)
  }

  /** Releasing one frame: nothing for frames that are out of range or free already. */
  function ReleaseFrame(s: State, f: nat): (r: State)
    requires s.Ok()
    ensures r.Ok() && r.base == s.base && r.size == s.size
  {
    if f < s.Total() && IsSet(s.words, f)
    then s.(words := ClearFrame(s.words, f), used := if s.used > 0 then s.used - 1 else 0)
    else s
  }

  function ReleaseRun(s: State, start: nat, count: nat): (r: State)
    requires s.Ok()
    ensures r.Ok() && r.base == s.base && r.size == s.size
  {
    if count == 0 then s else ReleaseFrame(ReleaseRun(s, start, count - 1), start + count - 1)
  }

  /** The end of the region, as 64 bits hold it: a region that reaches 2^64 seems to end before it starts. */
  function RegionEnd(s: State): nat {
    (s.base + s.size) % TWO64
  }

  predicate InRegion(s: State, addr: nat) {
    s.base <= addr < RegionEnd(s)
  }

  function FrameOf(s: State, addr: nat): nat
    requires s.base <= addr
  {
    (addr - s.base) / PAGE_SIZE
  }

  function AddrOf(s: State, f: nat): nat {
    (s.base + f * PAGE_SIZE) % TWO64
  }

  /** pmm_free_frame. */
  function FreeFrame(s: State, addr: nat): (r: State)
    requires s.Ok()
    ensures r.Ok()
  {
    if InRegion(s, addr) then ReleaseFrame(s, FrameOf(s, addr)) else s
  }

  /** pmm_free_frames. */
  function FreeFrames(s: State, addr: nat, count: nat): (r: State)
    requires s.Ok()
    ensures r.Ok()
  {
    if count > 0 && InRegion(s, addr) then ReleaseRun(s, FrameOf(s, addr), count) else s
  }

  // ---------------------------------------------------------------- what they do to the used frames

  lemma {:induction false} SetRunUsed(ws: seq<bv32>, total: nat, start: nat, count: nat)
    requires Covers(ws, total) && start + count <= total
    ensures UsedSet(SetRun(ws, start, count), total) == UsedSet(ws, total) + Frames(start, count)
  {
    hide UsedSet, SetFrame;
    if count > 0 {
      SetRunUsed(ws, total, start, count - 1);
      UsedAfterSet(SetRun(ws, start, count - 1), total, start + count - 1);
    }
  }

  lemma ReleaseFrameUsed(s: State, f: nat)
    requires s.Ok()
    ensures Used(ReleaseFrame(s, f)) == Used(s) - {f}
    ensures s.used >= |Used(s)| ==> ReleaseFrame(s, f).used - |Used(ReleaseFrame(s, f))| == s.used - |Used(s)|
  {
    if f < s.Total() && IsSet(s.words, f) {
      UsedAfterClear(s.words, s.Total(), f);
      assert f in Used(s);
    }
  }

  lemma {:induction false} ReleaseRunMember(s: State, start: nat, count: nat, f: nat)
    requires s.Ok()
    ensures f in Used(ReleaseRun(s, start, count)) <==> f in Used(s) && !(start <= f < start + count)
  {
    hide Used, ReleaseFrame;
    if count > 0 {
      ReleaseRunMember(s, start, count - 1, f);
      ReleaseFrameUsed(ReleaseRun(s, start, count - 1), start + count - 1);
    }
  }

  lemma ReleaseRunUsed(s: State, start: nat, count: nat)
    requires s.Ok()
    ensures Used(ReleaseRun(s, start, count)) == Used(s) - Frames(start, count)
  {
    hide Used, ReleaseRun, Frames;
    forall f: nat ensures f in Used(ReleaseRun(s, start, count)) <==> f in Used(s) - Frames(start, count) {
      ReleaseRunMember(s, start, count, f);
    }
  }

  /** Releasing keeps the counter's excess, so its guard against zero never skips a decrement that is due. */
  lemma {:induction false} ReleaseRunExcess(s: State, start: nat, count: nat)
    requires s.Ok() && s.used >= |Used(s)|
    ensures ReleaseRun(s, start, count).used - |Used(ReleaseRun(s, start, count))| == s.used - |Used(s)|
  {
    hide Used, ReleaseFrame;
    if count > 0 {
      ReleaseRunExcess(s, start, count - 1);
      ReleaseFrameUsed(ReleaseRun(s, start, count - 1), start + count - 1);
    }
  }

  lemma RunFreeMeaning(s: State, start: nat, count: nat)
    requires s.Ok()
    ensures RunFree(s, start, count) <==> start + count <= s.Total() && Frames(start, count) !! Used(s)
  {
    hide IsSet;
    if start + count <= s.Total() {
      assert forall f: nat :: start <= f < start + count ==> (!TestFrame(s, f) <==> f !in Used(s));
      assert Frames(start, count) !! Used(s) <==> forall f :: f in Frames(start, count) ==> f !in Used(s);
      assert forall f :: f in Frames(start, count) ==> f >= 0;
    }
  }

  lemma GrantedUsed(s: State, start: nat, count: nat)
    requires s.Ok() && RunFree(s, start, count)
    ensures Used(Granted(s, start, count)) == Used(s) + Frames(start, count)
    ensures Granted(s, start, count).used - |Used(Granted(s, start, count))| == s.used - |Used(s)|
  {
    SetRunUsed(s.words, s.Total(), start, count);
    RunFreeMeaning(s, start, count);
    FramesSize(start, count);
  }

  // ---------------------------------------------------------------- round trips

  /** Releasing frames before `f` and setting `f` can be exchanged. */
  lemma {:induction false} ReleaseRunPastSet(s: State, start: nat, count: nat, f: nat)
    requires s.Ok() && start + count <= f < s.Total()
    ensures ReleaseRun(s.(words := SetFrame(s.words, f)), start, count)
      == ReleaseRun(s, start, count).(words := SetFrame(ReleaseRun(s, start, count).words, f))
  {
    hide SetFrame, ClearFrame, IsSet;
    if count > 0 {
      ReleaseRunPastSet(s, start, count - 1, f);
      var r, g := ReleaseRun(s, start, count - 1), start + count - 1;
      SetFrameBits(r.words, f, g);
      SetClearCommute(r.words, f, g);
    }
  }

  /** Releasing exactly the frames just granted restores every word of the bitmap, and the counter. */
  lemma {:induction false} ReleaseUndoesGrant(s: State, start: nat, count: nat)
    requires s.Ok() && RunFree(s, start, count)
    ensures ReleaseRun(Granted(s, start, count), start, count) == s
    decreases count
  {
    hide SetFrame, ClearFrame, IsSet;
    if count > 0 {
      var f := start + count - 1;
      var before := Granted(s, start, count - 1).(used := s.used + count);
      assert !TestFrame(s, f);
      ReleaseRunPastSet(before, start, count - 1, f);
      ReleaseCountShift(Granted(s, start, count - 1), start, count - 1, 1);
      ReleaseUndoesGrant(s, start, count - 1);
      SetFrameBits(s.words, f, f);
      ClearUndoesSet(s.words, f);
    }
  }

  /** With enough in the counter, releasing takes the same amount off it whatever it holds. */
  lemma {:induction false} ReleaseCountShift(s: State, start: nat, count: nat, more: nat)
    requires s.Ok() && s.used >= count
    ensures s.used - count <= ReleaseRun(s, start, count).used
    ensures ReleaseRun(s.(used := s.used + more), start, count)
      == ReleaseRun(s, start, count).(used := ReleaseRun(s, start, count).used + more)
  {
    hide ClearFrame, IsSet;
    if count > 0 {
      ReleaseCountShift(s, start, count - 1, more);
    }
  }

  /** `n` single calls at successive pages. */
  function FreeEach(s: State, addr: nat, count: nat): (r: State)
    requires s.Ok()
    ensures r.Ok() && r.base == s.base && r.size == s.size
  {
    if count == 0 then s else FreeFrame(FreeEach(s, addr, count - 1), addr + (count - 1) * PAGE_SIZE)
  }

  /** A region below 2^64 ends where it should, and in a longer one no address is in range. */
  lemma RegionEnds(s: State)
    requires s.base < TWO64 && s.size < TWO64
    ensures if s.base + s.size < TWO64 then RegionEnd(s) == s.base + s.size else RegionEnd(s) < s.base
  {
  }

  lemma FrameStep(s: State, addr: nat, k: nat)
    requires s.base < TWO64 && s.size < TWO64 && InRegion(s, addr)
    ensures var a := addr + k * PAGE_SIZE;
      && FrameOf(s, a) == FrameOf(s, addr) + k
      && (FrameOf(s, a) < s.Total() ==> InRegion(s, a))
  {
  }

  lemma FreeFrameAt(s: State, addr: nat, k: nat)
    requires s.Ok() && s.base < TWO64 && s.size < TWO64 && InRegion(s, addr)
    ensures FreeFrame(s, addr + k * PAGE_SIZE) == ReleaseFrame(s, FrameOf(s, addr) + k)
  {
    hide IsSet, ClearFrame;
    FrameStep(s, addr, k);
  }

  lemma {:induction false} ReleaseRunIsFreeEach(s: State, addr: nat, count: nat)
    requires s.Ok() && s.base < TWO64 && s.size < TWO64 && InRegion(s, addr)
    ensures ReleaseRun(s, FrameOf(s, addr), count) == FreeEach(s, addr, count)
  {
    hide ReleaseFrame, FreeFrame;
    if count > 0 {
      ReleaseRunIsFreeEach(s, addr, count - 1);
      var r := ReleaseRun(s, FrameOf(s, addr), count - 1);
      assert InRegion(r, addr) && FrameOf(r, addr) == FrameOf(s, addr);
      FreeFrameAt(r, addr, count - 1);
    }
  }

  /** Freeing a run is freeing its frames one call at a time. */
  lemma FreeFramesIsFreeEach(s: State, addr: nat, count: nat)
    requires s.Ok() && s.base < TWO64 && s.size < TWO64 && InRegion(s, addr)
    ensures FreeFrames(s, addr, count) == FreeEach(s, addr, count)
  {
    ReleaseRunIsFreeEach(s, addr, count);
  }
}
