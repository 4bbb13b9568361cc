/** Who owns which frame over whole runs, and why the bitmap is safe where it lies. */
module PmmTheorems {
  import opened BitOps
  import opened Bitmap
  import opened MemoryMap
  import opened PmmSpec
  import opened PmmInit
  import Pmm

  // ---------------------------------------------------------------- ownership

  datatype Grant = Grant(start: nat, count: nat)

  /** The manager together with the ranges its callers hold. */
  datatype World = World(pmm: State, grants: seq<Grant>)

  ghost function GrantFrames(g: Grant): set<nat> {
    Frames(g.start, g.count)
  }

  function Without(grants: seq<Grant>, i: nat): seq<Grant>
    requires i < |grants|
  {
    grants[..i] + grants[i + 1..]
  }

  /** pmm_alloc_frames (and pmm_alloc_frame, with count 1); address 0 is a refusal. */
  ghost predicate AllocStep(w: World, w': World, count: nat, addr: nat) {
    && w.pmm.Ok() && Pmm.AllocOutcome(w.pmm, w'.pmm, count, addr)
    && w'.grants == if addr == 0 || addr < w.pmm.base then w.grants else w.grants + [Grant(FrameOf(w.pmm, addr), count)]
  }

  /** pmm_free_frames of the range of grant `i` (pmm_free_frame, when it is one frame). */
  ghost predicate FreeStep(w: World, w': World, i: nat) {
    && w.pmm.Ok() && i < |w.grants|
    && (w'.pmm == FreeFrames(w.pmm, AddrOf(w.pmm, w.grants[i].start), w.grants[i].count)
        || (w.grants[i].count == 1 && w'.pmm == FreeFrame(w.pmm, AddrOf(w.pmm, w.grants[i].start))))
    && w'.grants == Without(w.grants, i)
  }

  ghost predicate Next(w: World, w': World) {
    || (exists count: nat, addr: nat :: AllocStep(w, w', count, addr))
    || (exists i: nat :: FreeStep(w, w', i))
  }

  ghost predicate HeldBySome(grants: seq<Grant>, f: nat) {
    exists i :: 0 <= i < |grants| && f in GrantFrames(grants[i])
  }

  /** Ranges inside the region, clear of each other and of what is reserved. */
  ghost predicate Apart(grants: seq<Grant>, total: nat, reserved: set<nat>) {
    && (forall i :: 0 <= i < |grants| ==> grants[i].count > 0 && grants[i].start + grants[i].count <= total)
    && (forall i, j :: 0 <= i < j < |grants| ==> GrantFrames(grants[i]) !! GrantFrames(grants[j]))
    && (forall i :: 0 <= i < |grants| ==> GrantFrames(grants[i]) !! reserved)
  }

  lemma ApartWithout(grants: seq<Grant>, total: nat, reserved: set<nat>, i: nat)
    requires Apart(grants, total, reserved) && i < |grants|
    ensures Apart(Without(grants, i), total, reserved)
  {
    hide Frames, GrantFrames;
    var less := Without(grants, i);
    forall j, k | 0 <= j < k < |less| ensures GrantFrames(less[j]) !! GrantFrames(less[k]) {
      assert less[j] == grants[if j < i then j else j + 1] && less[k] == grants[if k < i then k else k + 1];
    }
  }

  /** Every used frame has exactly one holder: the reservation at start-up, or one grant. */
  ghost predicate Owned(w: World, base: nat, size: nat, reserved: set<nat>, excess: int) {
    && w.pmm.Ok() && w.pmm.base == base && w.pmm.size == size && base + size < TWO64
    && Apart(w.grants, w.pmm.Total(), reserved)
    && (forall f: nat :: f in Used(w.pmm) <==> f in reserved || HeldBySome(w.grants, f))
    && w.pmm.used - |Used(w.pmm)| == excess >= 0
  }

  lemma ApartMore(grants: seq<Grant>, total: nat, reserved: set<nat>, g: Grant)
    requires Apart(grants, total, reserved) && g.count > 0 && g.start + g.count <= total
    requires GrantFrames(g) !! reserved && forall f :: f in GrantFrames(g) ==> !HeldBySome(grants, f)
    ensures Apart(grants + [g], total, reserved)
  {
    hide Frames, GrantFrames;
    forall i | 0 <= i < |grants| ensures GrantFrames(grants[i]) !! GrantFrames(g) {
      forall f | f in GrantFrames(grants[i]) ensures f !in GrantFrames(g) {
        assert HeldBySome(grants, f);
      }
    }
  }

  lemma GrantIsOwned(w: World, w': World, base: nat, size: nat, reserved: set<nat>, excess: int, start: nat, count: nat)
    requires Owned(w, base, size, reserved, excess) && count > 0 && RunFree(w.pmm, start, count)
    requires w' == World(Granted(w.pmm, start, count), w.grants + [Grant(start, count)])
    ensures Owned(w', base, size, reserved, excess)
  {
    hide Used, TestFrame, Granted, Frames, GrantFrames, HeldBySome, Apart;
    var g := Grant(start, count);
    GrantedUsed(w.pmm, start, count);
    RunFreeMeaning(w.pmm, start, count);
    GrantedRegion(w.pmm, start, count);
    GrantFramesAre(g);
    ApartMore(w.grants, w.pmm.Total(), reserved, g);
    forall f: nat ensures HeldBySome(w'.grants, f) <==> HeldBySome(w.grants, f) || f in GrantFrames(g) {
      HeldMore(w.grants, g, f);
    }
  }

  lemma GrantedRegion(s: State, start: nat, count: nat)
    requires s.Ok() && start + count <= s.Total()
    ensures var r := Granted(s, start, count); r.base == s.base && r.size == s.size
  {
  }

  lemma HeldMore(grants: seq<Grant>, g: Grant, f: nat)
    ensures HeldBySome(grants + [g], f) <==> HeldBySome(grants, f) || f in GrantFrames(g)
  {
    var more := grants + [g];
    if HeldBySome(grants, f) {
      var i :| 0 <= i < |grants| && f in GrantFrames(grants[i]);
      assert more[i] == grants[i];
    }
    if f in GrantFrames(g) {
      assert more[|grants|] == g;
    }
  }

  lemma HeldLess(grants: seq<Grant>, i: nat, f: nat)
    requires i < |grants|
    requires forall j, k :: 0 <= j < k < |grants| ==> GrantFrames(grants[j]) !! GrantFrames(grants[k])
    ensures HeldBySome(Without(grants, i), f) <==> HeldBySome(grants, f) && f !in GrantFrames(grants[i])
  {
    hide Frames;
    var less := Without(grants, i);
    if HeldBySome(less, f) {
      var k :| 0 <= k < |less| && f in GrantFrames(less[k]);
      var j := if k < i then k else k + 1;
      assert grants[j] == less[k];
    }
    if HeldBySome(grants, f) && f !in GrantFrames(grants[i]) {
      var j :| 0 <= j < |grants| && f in GrantFrames(grants[j]);
      assert less[if j < i then j else j - 1] == grants[j];
    }
  }

  lemma AddrRoundTrip(s: State, f: nat)
    requires f < s.Total() && s.base + s.size < TWO64
    ensures AddrOf(s, f) == s.base + f * PAGE_SIZE && InRegion(s, AddrOf(s, f)) && FrameOf(s, AddrOf(s, f)) == f
  {
  }

  lemma ReleaseIsOwned(w: World, w': World, base: nat, size: nat, reserved: set<nat>, excess: int, i: nat)
    requires Owned(w, base, size, reserved, excess) && i < |w.grants|
    requires w' == World(ReleaseRun(w.pmm, w.grants[i].start, w.grants[i].count), Without(w.grants, i))
    ensures Owned(w', base, size, reserved, excess)
  {
    hide Used, ReleaseRun, Frames, GrantFrames, Without, HeldBySome, Apart;
    var g := w.grants[i];
    ReleaseRunUsed(w.pmm, g.start, g.count);
    ReleaseRunExcess(w.pmm, g.start, g.count);
    ApartWithout(w.grants, w.pmm.Total(), reserved, i);
    HeldAndReserved(w.grants, w.pmm.Total(), reserved, i);
    assert GrantFrames(g) == Frames(g.start, g.count) by { GrantFramesAre(g); }
  }

  lemma GrantFramesAre(g: Grant)
    ensures GrantFrames(g) == Frames(g.start, g.count)
  {
  }

  lemma HeldAndReserved(grants: seq<Grant>, total: nat, reserved: set<nat>, i: nat)
    requires Apart(grants, total, reserved) && i < |grants|
    ensures forall f: nat :: HeldBySome(Without(grants, i), f) <==>
      HeldBySome(grants, f) && f !in GrantFrames(grants[i])
    ensures forall f: nat :: f in reserved ==> f !in GrantFrames(grants[i])
  {
    hide Frames, GrantFrames, Without, HeldBySome;
    forall f: nat ensures HeldBySome(Without(grants, i), f) <==> HeldBySome(grants, f) && f !in GrantFrames(grants[i]) {
      HeldLess(grants, i, f);
    }
  }

  lemma FreeStepReleases(w: World, w': World, i: nat)
    requires FreeStep(w, w', i) && w.grants[i].count > 0 && w.grants[i].start < w.pmm.Total()
    requires w.pmm.base + w.pmm.size < TWO64
    ensures w' == World(ReleaseRun(w.pmm, w.grants[i].start, w.grants[i].count), Without(w.grants, i))
  {
    hide ReleaseFrame;
    AddrRoundTrip(w.pmm, w.grants[i].start);
    assert ReleaseRun(w.pmm, w.grants[i].start, 0) == w.pmm;
  }

  /** Where address 0 cannot be granted, because it is not a managed frame's or its frame is reserved. */
  ghost predicate NullIsNoFrame(base: nat, size: nat, reserved: set<nat>) {
    base > 0 || size < PAGE_SIZE || 0 in reserved
  }

  lemma NextIsOwned(w: World, w': World, base: nat, size: nat, reserved: set<nat>, excess: int)
    requires Owned(w, base, size, reserved, excess) && NullIsNoFrame(base, size, reserved) && Next(w, w')
    ensures Owned(w', base, size, reserved, excess)
  {
    hide Owned;
    if count: nat, addr: nat :| AllocStep(w, w', count, addr) {
      AllocIsOwned(w, w', base, size, reserved, excess, count, addr);
    } else {
      var i: nat :| FreeStep(w, w', i);
      GrantInRange(w, base, size, reserved, excess, i);
      FreeStepReleases(w, w', i);
      ReleaseIsOwned(w, w', base, size, reserved, excess, i);
    }
  }

  lemma GrantInRange(w: World, base: nat, size: nat, reserved: set<nat>, excess: int, i: nat)
    requires Owned(w, base, size, reserved, excess) && i < |w.grants|
    ensures w.pmm.Ok() && w.pmm.base + w.pmm.size < TWO64
    ensures w.grants[i].count > 0 && w.grants[i].start + w.grants[i].count <= w.pmm.Total()
  {
  }

  lemma AllocIsOwned(w: World, w': World, base: nat, size: nat, reserved: set<nat>, excess: int, count: nat, addr: nat)
    requires Owned(w, base, size, reserved, excess) && NullIsNoFrame(base, size, reserved)
    requires AllocStep(w, w', count, addr)
    ensures Owned(w', base, size, reserved, excess)
  {
    var r: int :| Pmm.OutcomeAt(w.pmm, w'.pmm, count, addr, r);
    if r >= 0 {
      AllocatedIsNotNull(w, base, size, reserved, excess, r, count);
      AddrRoundTrip(w.pmm, r);
      assert w' == World(Granted(w.pmm, r, count), w.grants + [Grant(r, count)]);
      GrantIsOwned(w, w', base, size, reserved, excess, r, count);
    }
  }

  lemma AllocatedIsNotNull(w: World, base: nat, size: nat, reserved: set<nat>, excess: int, r: nat, count: nat)
    requires Owned(w, base, size, reserved, excess) && NullIsNoFrame(base, size, reserved)
    requires count > 0 && RunFree(w.pmm, r, count)
    ensures AddrOf(w.pmm, r) > 0
  {
    hide AddrOf, InRegion;
    RunFreeMeaning(w.pmm, r, count);
    assert r in Frames(r, count);
    AddrRoundTrip(w.pmm, r);
  }

  /**
    Freeing the address that pmm_alloc_frames returned undoes it if and only if the region ends below 2^64;
    beyond, a free does nothing.
   */
  lemma FreeUndoesAlloc(s: State, s': State, count: nat, addr: nat, r: nat)
    requires s.Ok() && s.base < TWO64 && s.size < TWO64 && Pmm.OutcomeAt(s, s', count, addr, r)
    ensures FreeFrames(s', addr, count) == s <==> s.base + s.size < TWO64
    ensures s.base + s.size >= TWO64 ==> FreeFrames(s', addr, count) == s'
  {
    hide Granted, RunFree, ReleaseRun, Used;
    GrantCounts(s, r, count);
    GrantedRegion(s, r, count);
    RegionEnds(s);
    if s.base + s.size < TWO64 {
      AddrRoundTrip(s, r);
      ReleaseUndoesGrant(s, r, count);
    }
  }

  lemma GrantCounts(s: State, start: nat, count: nat)
    requires s.Ok() && RunFree(s, start, count)
    ensures start + count <= s.Total() && Granted(s, start, count).used == s.used + count
  {
  }

  /** A run of the manager and its callers. */
  ghost predicate IsRun(ws: seq<World>) {
    |ws| > 0 && forall k :: 0 <= k && k + 1 < |ws| ==> Next(ws[k], ws[k + 1])
  }

  /**
    Over every run: grants stay disjoint from each other and from what was reserved, and the counter's excess is
    fixed.
   */
  lemma {:induction false} RunIsOwned(ws: seq<World>, k: nat, base: nat, size: nat, reserved: set<nat>, excess: int)
    requires IsRun(ws) && k < |ws|
    requires Owned(ws[0], base, size, reserved, excess) && NullIsNoFrame(base, size, reserved)
    ensures Owned(ws[k], base, size, reserved, excess)
  {
    hide Owned, Next;
    if k > 0 {
      RunIsOwned(ws, k - 1, base, size, reserved, excess);
      assert Next(ws[k - 1], ws[k - 1 + 1]);
      NextIsOwned(ws[k - 1], ws[k], base, size, reserved, excess);
    }
  }

  lemma InitIsOwned(base: nat, size: nat, entries: seq<Entry>)
    requires base + size < TWO64
    ensures var s := Init(base, size, entries);
      Owned(World(s, []), base, size, Used(s), s.used - |Used(s)|)
    ensures base == 0 && size >= PAGE_SIZE ==> 0 in Used(Init(base, size, entries))
  {
    hide Init, Used;
    InitCount(base, size, entries);
    InitUsed(base, size, entries, 0);
  }

  /**
    From initialisation on: no grant ever includes a frame that initialisation marked, and no frame is granted
    twice.
   */
  lemma RunFromInit(ws: seq<World>, k: nat, base: nat, size: nat, entries: seq<Entry>)
    requires IsRun(ws) && k < |ws| && base + size < TWO64
    requires ws[0] == World(Init(base, size, entries), [])
    ensures var w := ws[k];
      && w.pmm.Ok() && w.pmm.Total() == size / PAGE_SIZE
      && (forall i :: 0 <= i < |w.grants| ==>
           w.grants[i].start + w.grants[i].count <= w.pmm.Total()
           && forall f :: f in GrantFrames(w.grants[i]) ==> !MarkedByInit(base, size, entries, f))
      && (forall i, j :: 0 <= i < j < |w.grants| ==> GrantFrames(w.grants[i]) !! GrantFrames(w.grants[j]))
      && (forall f: nat :: f in Used(w.pmm) <==> MarkedByInit(base, size, entries, f) || HeldBySome(w.grants, f))
      && (w.pmm.used == |Used(w.pmm)| <==> NoOverlap(Empty(base, size), entries, |entries|))
  {
    hide Init, Used, MarkedByInit, IsRun, NoOverlap, Next;
    var s := Init(base, size, entries);
    InitIsOwned(base, size, entries);
    RunIsOwned(ws, k, base, size, Used(s), s.used - |Used(s)|);
    InitCount(base, size, entries);
    forall f: nat ensures f in Used(s) <==> MarkedByInit(base, size, entries, f) {
      InitUsed(base, size, entries, f);
    }
  }

  // ---------------------------------------------------------------- the counter, whoever frees what

  /** Any call at all, with any arguments. */
  ghost predicate AnyCall(s: State, s': State) {
    && s.Ok()
    && ((exists count: nat, addr: nat :: Pmm.AllocOutcome(s, s', count, addr))
        || (exists addr: nat :: s' == FreeFrame(s, addr))
        || (exists addr: nat, count: nat :: s' == FreeFrames(s, addr, count)))
  }

  /** How far the counter is ahead of the bitmap; never behind. */
  ghost predicate Ahead(s: State, excess: nat) {
    s.Ok() && s.used == |Used(s)| + excess
  }

  lemma CallKeepsExcess(s: State, s': State, excess: nat)
    requires Ahead(s, excess) && AnyCall(s, s')
    ensures Ahead(s', excess)
  {
    hide Used;
    if count: nat, addr: nat :| Pmm.AllocOutcome(s, s', count, addr) {
      var r: int :| Pmm.OutcomeAt(s, s', count, addr, r);
      if r >= 0 { GrantedUsed(s, r, count); }
    } else if addr: nat :| s' == FreeFrame(s, addr) {
      if InRegion(s, addr) { ReleaseFrameUsed(s, FrameOf(s, addr)); }
    } else {
      var addr: nat, count: nat :| s' == FreeFrames(s, addr, count);
      if InRegion(s, addr) { ReleaseRunExcess(s, FrameOf(s, addr), count); }
    }
  }

  lemma {:induction false} RunKeepsExcess(ss: seq<State>, k: nat, excess: nat)
    requires k < |ss| && Ahead(ss[0], excess)
    requires forall j :: 0 <= j && j + 1 < |ss| ==> AnyCall(ss[j], ss[j + 1])
    ensures Ahead(ss[k], excess)
  {
    hide Ahead, AnyCall;
    if k > 0 {
      RunKeepsExcess(ss, k - 1, excess);
      assert AnyCall(ss[k - 1], ss[k - 1 + 1]);
      CallKeepsExcess(ss[k - 1], ss[k], excess);
    }
  }

  /**
    Whatever is called after initialisation, the counter is exact if and only if the reserved entries' frame
    ranges do not overlap.
   */
  lemma CounterOverRuns(ss: seq<State>, k: nat, base: nat, size: nat, entries: seq<Entry>)
    requires k < |ss| && ss[0] == Init(base, size, entries)
    requires forall j :: 0 <= j && j + 1 < |ss| ==> AnyCall(ss[j], ss[j + 1])
    ensures ss[k].Ok() && ss[k].used >= |Used(ss[k])|
    ensures ss[k].used == |Used(ss[k])| <==> NoOverlap(Empty(base, size), entries, |entries|)
  {
    hide Init, Used, NoOverlap, AnyCall;
    InitCount(base, size, entries);
    RunKeepsExcess(ss, k, ss[0].used - |Used(ss[0])|);
  }

  // ---------------------------------------------------------------- the bitmap's own memory

  /** Every available entry starts a page. */
  ghost predicate PageAligned(entries: seq<Entry>) {
    forall i :: 0 <= i < |entries| && entries[i].kind == AVAILABLE ==> entries[i].base % PAGE_SIZE == 0
  }

  /** No two available entries overlap. */
  ghost predicate DisjointEntries(entries: seq<Entry>) {
    forall i, j :: 0 <= i < |entries| && 0 <= j < |entries| && i != j
                   && entries[i].kind == AVAILABLE && entries[j].kind == AVAILABLE ==>
      entries[i].End() <= entries[j].base || entries[j].End() <= entries[i].base
  }

  ghost predicate EndBelowTop(entries: seq<Entry>) {
    forall i :: 0 <= i < |entries| && entries[i].kind == AVAILABLE ==> entries[i].End() <= TWO64
  }

  /** Managed frame `f` shares a byte with the `bytes` bytes at `addr`. */
  predicate Touches(base: nat, f: nat, addr: nat, bytes: nat) {
    base + f * PAGE_SIZE < addr + bytes && addr < base + (f + 1) * PAGE_SIZE
  }

  lemma BitmapBytesBound(size: nat)
    requires size <= TWO64
    ensures BitmapBytes(size) + PAGE_SIZE < TWO64
    ensures PagesOf(BitmapBytes(size)) == (BitmapBytes(size) + PAGE_SIZE - 1) / PAGE_SIZE
  {
  }

  /** The bitmap lies in one available entry, at or above 2 MiB. */
  lemma BitmapInAvailable(entries: seq<Entry>, bytes: nat)
    requires FirstSuiting(entries, bytes) < |entries|
    ensures var i, addr := FirstSuiting(entries, bytes), BitmapLocation(entries, bytes);
      && entries[i].kind == AVAILABLE && entries[i].base <= addr && addr + bytes <= entries[i].End() && addr >= TWO_MIB
  {
  }

  /** The frames touched by a bitmap at or above the base: those from its first on, with one more when it straddles. */
  lemma TouchedFrames(base: nat, addr: nat, bytes: nat, f: nat)
    requires base <= addr < TWO64 && bytes > 0
    ensures var first, pages := BitmapFrame(addr, base), (bytes + PAGE_SIZE - 1) / PAGE_SIZE;
      Touches(base, f, addr, bytes) <==>
        first <= f < first + pages
        || (f == first + pages && (addr - base) % PAGE_SIZE + bytes > pages * PAGE_SIZE)
  {
    var d := addr - base;
    assert BitmapFrame(addr, base) == d / PAGE_SIZE;
    assert d == d / PAGE_SIZE * PAGE_SIZE + d % PAGE_SIZE;
  }

  /** Every managed frame that the bitmap occupies a byte of is marked used. */
  ghost predicate BitmapProtected(entries: seq<Entry>, base: nat, size: nat) {
    var bytes := BitmapBytes(size);
    var addr := BitmapLocation(entries, bytes);
    forall f: nat :: f < size / PAGE_SIZE && Touches(base, f, addr, bytes) ==> f in Used(Init(base, size, entries))
  }

  /**
    Whatever the map, a bitmap at or above the base of the region protects itself if and only if it does not straddle
    into one more page than its size needs, or the frame of that page is not managed or is marked for another reason.
   */
  lemma BitmapProtectedExactly(entries: seq<Entry>, base: nat, size: nat)
    requires size <= TWO64 && base <= BitmapLocation(entries, BitmapBytes(size)) < TWO64
    ensures var bytes := BitmapBytes(size);
      var addr := BitmapLocation(entries, bytes);
      var next := BitmapFrame(addr, base) + PagesOf(bytes);
      BitmapProtected(entries, base, size) <==>
        || (addr - base) % PAGE_SIZE + bytes <= PagesOf(bytes) * PAGE_SIZE
        || next >= size / PAGE_SIZE || next < KERNEL_FRAMES || next in AllReserved(Empty(base, size), entries)
  {
    hide Init, Used, BitmapBytes, PagesOf, BitmapFrame, AllReserved, BitmapLocation, Touches;
    var bytes := BitmapBytes(size);
    var addr := BitmapLocation(entries, bytes);
    NoFramesNoBytes(size);
    BitmapBytesBound(size);
    var total, first, pages := size / PAGE_SIZE, BitmapFrame(addr, base), PagesOf(bytes);
    var next := first + pages;
    if total > 0 {
      TouchedFrames(base, addr, bytes, next);
      InitUsed(base, size, entries, next);
      forall f: nat | f < total && f != next && Touches(base, f, addr, bytes)
        ensures f in Used(Init(base, size, entries))
      {
        TouchedFrames(base, addr, bytes, f);
        InitUsed(base, size, entries, f);
      }
    }
  }

  lemma NoFramesNoBytes(size: nat)
    ensures BitmapBytes(size) == 0 <==> size / PAGE_SIZE == 0
  {
  }

  /**
    Whatever the map, a bitmap that starts below the base of the region is not marked at all; it protects itself if
    and only if the managed frames it reaches are marked for another reason.
   */
  lemma BitmapBelowExactly(entries: seq<Entry>, base: nat, size: nat)
    requires base + size <= TWO64 && BitmapLocation(entries, BitmapBytes(size)) < base
    ensures var addr, bytes := BitmapLocation(entries, BitmapBytes(size)), BitmapBytes(size);
      BitmapProtected(entries, base, size) <==>
        forall f: nat :: KERNEL_FRAMES <= f < size / PAGE_SIZE && base + f * PAGE_SIZE < addr + bytes ==>
          f in AllReserved(Empty(base, size), entries)
  {
    hide Init, Used, BitmapBytes, PagesOf, BitmapFrame, AllReserved, BitmapLocation;
    var bytes := BitmapBytes(size);
    var addr := BitmapLocation(entries, bytes);
    BelowIsUnmarked(addr, base, size);
    forall f: nat
      ensures Touches(base, f, addr, bytes) <==> base + f * PAGE_SIZE < addr + bytes
      ensures f in Used(Init(base, size, entries)) <==> MarkedByInit(base, size, entries, f)
    {
      InitUsed(base, size, entries, f);
    }
    if BitmapProtected(entries, base, size) {
      forall f: nat | KERNEL_FRAMES <= f < size / PAGE_SIZE && base + f * PAGE_SIZE < addr + bytes
        ensures f in AllReserved(Empty(base, size), entries)
      {
        assert Touches(base, f, addr, bytes);
      }
    }
  }

  /** The 64-bit difference puts the first frame of such a bitmap past the end of the region. */
  lemma BelowIsUnmarked(addr: nat, base: nat, size: nat)
    requires addr < base && base + size <= TWO64
    ensures BitmapFrame(addr, base) >= size / PAGE_SIZE
  {
    assert (addr - base) % TWO64 == TWO64 - (base - addr);
  }

  /** The location starts a page, at or above 2 MiB. */
  lemma LocationAligned(entries: seq<Entry>, bytes: nat)
    requires PageAligned(entries)
    ensures BitmapLocation(entries, bytes) % PAGE_SIZE == 0 && BitmapLocation(entries, bytes) >= TWO_MIB
  {
  }

  lemma BitmapFits(size: nat)
    requires size >= TWO_MIB
    ensures 0 < BitmapBytes(size) && BitmapBytes(size) + 2 * PAGE_SIZE <= size
  {
  }

  /** A bitmap below the base of a detected region lies in another entry, clear of the region. */
  lemma BelowIsClear(entries: seq<Entry>, base: nat, size: nat)
    requires DisjointEntries(entries) && IsLargestAvailable(entries, base, size) && size >= TWO_MIB
    requires BitmapLocation(entries, BitmapBytes(size)) < base
    ensures FirstSuiting(entries, BitmapBytes(size)) < |entries|
    ensures BitmapLocation(entries, BitmapBytes(size)) + BitmapBytes(size) <= base
  {
    hide BitmapBytes;
    var bytes := BitmapBytes(size);
    BitmapFits(size);
    var m: nat :| LongestAt(entries, |entries|, m) && entries[m].base == base && entries[m].length == size;
    assert BitmapLocation(entries, bytes) >= TWO_MIB;
    assert Suits(entries[m], bytes);
    var i := FirstSuiting(entries, bytes);
    BitmapInAvailable(entries, bytes);
    assert i != m;
  }

  lemma LocationBelowTop(entries: seq<Entry>, size: nat)
    requires size >= TWO_MIB && EndBelowTop(entries)
    ensures BitmapLocation(entries, BitmapBytes(size)) < TWO64
  {
    hide BitmapBytes;
    BitmapFits(size);
    if FirstSuiting(entries, BitmapBytes(size)) < |entries| {
      BitmapInAvailable(entries, BitmapBytes(size));
    }
  }

  /** The region that kernel_main settles on starts a page and ends by 2^64, if the available entries do. */
  lemma ChosenRegionAligned(entries: seq<Entry>, base: nat, size: nat)
    requires PageAligned(entries) && EndBelowTop(entries) && IsChosenRegion(entries, base, size)
    ensures base % PAGE_SIZE == 0 && base + size <= TWO64 && size >= TWO_MIB
  {
  }

  lemma AlignedFits(base: nat, addr: nat, bytes: nat)
    requires base % PAGE_SIZE == 0 && addr % PAGE_SIZE == 0 && base <= addr && bytes + PAGE_SIZE < TWO64
    ensures (addr - base) % PAGE_SIZE + bytes <= PagesOf(bytes) * PAGE_SIZE
  {
  }

  /**
    The bitmap protects itself in whichever region kernel_main settles on, if available entries start a page and do
    not overlap; where they end, and what the other entries are, does not matter.
   */
  lemma BitmapSelfProtection(entries: seq<Entry>, base: nat, size: nat)
    requires PageAligned(entries) && DisjointEntries(entries) && EndBelowTop(entries)
    requires IsChosenRegion(entries, base, size)
    ensures BitmapProtected(entries, base, size)
  {
    hide Init, Used, BitmapBytes, BitmapLocation, PagesOf, BitmapFrame, AllReserved, PageAligned, EndBelowTop;
    var bytes := BitmapBytes(size);
    LocationAligned(entries, bytes);
    LocationBelowTop(entries, size);
    ChosenRegionAligned(entries, base, size);
    BitmapBytesBound(size);
    if BitmapLocation(entries, bytes) < base {
      BelowIsClear(entries, base, size);
    } else {
      AlignedFits(base, BitmapLocation(entries, bytes), bytes);
      BitmapProtectedExactly(entries, base, size);
    }
  }

  /** One available entry that starts inside a page: its region is managed, and the end of the bitmap is not marked. */
  lemma UnalignedEntryUnprotected()
    ensures var entries := [Entry(0x800, 0x800_0000, AVAILABLE)];
      && DisjointEntries(entries) && EndBelowTop(entries) && IsChosenRegion(entries, 0x800, 0x800_0000)
      && FirstSuiting(entries, BitmapBytes(0x800_0000)) == 0
      && !BitmapProtected(entries, 0x800, 0x800_0000)
  {
    hide Init, Used, BitmapProtected;
    var entries := [Entry(0x800, 0x800_0000, AVAILABLE)];
    assert BitmapBytes(0x800_0000) == 4096;
    assert FirstSuiting(entries, 4096) == 0 && BitmapLocation(entries, 4096) == 0x20_1000;
    assert LongestAt(entries, 1, 0);
    BitmapProtectedExactly(entries, 0x800, 0x800_0000);
  }
}
