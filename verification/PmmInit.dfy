/** How pmm_init marks frames, and what its counter then holds. */
module PmmInit {
  import opened BitOps
  import opened Bitmap
  import opened MemoryMap
  import opened PmmSpec

  /** (0x100000 + 0x100000) / PAGE_SIZE. */
  const KERNEL_FRAMES: nat := 512

  /** Every word of the bitmap cleared. */
  function Empty(base: nat, size: nat): (s: State)
    ensures s.Ok()
  {
    State(base, size, seq((size / PAGE_SIZE + 31) / 32, i => 0 as bv32), 0)
  }

  function BitmapBytes(size: nat): nat {
    (size / PAGE_SIZE + 31) / 32 * 4
  }

  /** Pages covered by `length` bytes; the rounding sum is taken in 64 bits. */
  function PagesOf(length: nat): nat {
    (length + PAGE_SIZE - 1) % TWO64 / PAGE_SIZE
  }

  // ---------------------------------------------------------------- reserved entries

  /** The first frame of a reserved entry that starts inside the region. */
  predicate Reserves(s: State, e: Entry) {
    e.kind != AVAILABLE && InRegion(s, e.base)
  }

  function StartFrame(s: State, e: Entry): nat
    requires Reserves(s, e)
  {
    (e.base - s.base) / PAGE_SIZE
  }

  /** How many frames of it are marked: clipped at the end of the region. */
  function FrameCount(s: State, e: Entry): nat
    requires Reserves(s, e)
  {
    var end := Min(StartFrame(s, e) + PagesOf(e.length), s.Total());
    if end > StartFrame(s, e) then end - StartFrame(s, e) else 0
  }

  ghost function ReservedFrames(s: State, e: Entry): set<nat> {
    if Reserves(s, e) then Frames(StartFrame(s, e), FrameCount(s, e)) else {}
  }

  /** Marking one entry sets its frames and counts each of them, set before or not. */
  function MarkEntry(s: State, e: Entry): (r: State)
    requires s.Ok()
    ensures r.Ok() && r.base == s.base && r.size == s.size
  {
    if Reserves(s, e) && FrameCount(s, e) > 0
    then s.(words := SetRun(s.words, StartFrame(s, e), FrameCount(s, e)), used := s.used + FrameCount(s, e))
    else s
  }

  function MarkEntries(s: State, entries: seq<Entry>): (r: State)
    requires s.Ok()
    ensures r.Ok() && r.base == s.base && r.size == s.size
  {
    if entries == [] then s else MarkEntry(MarkEntries(s, entries[..|entries| - 1]), entries[|entries| - 1])
  }

  // ---------------------------------------------------------------- bitmap and kernel

  /** Marking a frame unless it is marked already or not managed. */
  function ClaimFrame(s: State, f: nat): (r: State)
    requires s.Ok()
    ensures r.Ok() && r.base == s.base && r.size == s.size
  {
    if TestFrame(s, f) then s else s.(words := SetFrame(s.words, f), used := s.used + 1)
  }

  function ClaimRun(s: State, start: nat, count: nat): (r: State)
    requires s.Ok()
    ensures r.Ok() && r.base == s.base && r.size == s.size
  {
    if count == 0 then s else ClaimFrame(ClaimRun(s, start, count - 1), start + count - 1)
  }

  /** The bitmap's first frame; the difference is taken in 64 bits, so it is huge below the base. */
  function BitmapFrame(addr: nat, base: nat): nat {
    (addr - base) % TWO64 / PAGE_SIZE
  }

  function Min(a: nat, b: nat): nat {
    if a < b then a else b
  }

  function Init(base: nat, size: nat, entries: seq<Entry>): (s: State)
    ensures s.Ok() && s.base == base && s.size == size
  {
    var bytes := BitmapBytes(size);
    var marked := MarkEntries(Empty(base, size), entries);
    var withBitmap := ClaimRun(marked, BitmapFrame(BitmapLocation(entries, bytes), base), PagesOf(bytes));
    ClaimRun(withBitmap, 0, Min(KERNEL_FRAMES, withBitmap.Total()))
  }

  // ---------------------------------------------------------------- which frames are used

  lemma ClaimFrameUsed(s: State, f: nat)
    requires s.Ok()
    ensures Used(ClaimFrame(s, f)) == Used(s) + (if f < s.Total() then {f} else {})
    ensures ClaimFrame(s, f).used - |Used(ClaimFrame(s, f))| == s.used - |Used(s)|
  {
    if !TestFrame(s, f) {
      UsedAfterSet(s.words, s.Total(), f);
    }
  }

  lemma {:induction false} ClaimRunMember(s: State, start: nat, count: nat, f: nat)
    requires s.Ok()
    ensures f in Used(ClaimRun(s, start, count)) <==> f in Used(s) || (start <= f < start + count && f < s.Total())
  {
    hide Used, ClaimFrame;
    if count > 0 {
      ClaimRunMember(s, start, count - 1, f);
      ClaimFrameUsed(ClaimRun(s, start, count - 1), start + count - 1);
    }
  }

  lemma {:induction false} ClaimRunExcess(s: State, start: nat, count: nat)
    requires s.Ok()
    ensures ClaimRun(s, start, count).used - |Used(ClaimRun(s, start, count))| == s.used - |Used(s)|
  {
    hide Used, ClaimFrame;
    if count > 0 {
      ClaimRunExcess(s, start, count - 1);
      ClaimFrameUsed(ClaimRun(s, start, count - 1), start + count - 1);
    }
  }

  lemma EmptyUsed(base: nat, size: nat)
    ensures Used(Empty(base, size)) == {}
  {
    var s := Empty(base, size);
    forall f: nat | f < s.Total() ensures !IsSet(s.words, f) {
      ZeroWord(BitOf(f));
    }
  }

  lemma ZeroWord(b: bv32)
    requires b < 32
    ensures !Bit(0, b)
  {
  }

  /** All that the entries reserve. */
  ghost function AllReserved(s: State, entries: seq<Entry>): set<nat> {
    set i, f | 0 <= i < |entries| && f in ReservedFrames(s, entries[i]) :: f
  }

  lemma MarkEntryUsed(s: State, e: Entry)
    requires s.Ok()
    ensures Used(MarkEntry(s, e)) == Used(s) + ReservedFrames(s, e)
    ensures MarkEntry(s, e).used == s.used + |ReservedFrames(s, e)|
  {
    if Reserves(s, e) && FrameCount(s, e) > 0 {
      SetRunUsed(s.words, s.Total(), StartFrame(s, e), FrameCount(s, e));
      FramesSize(StartFrame(s, e), FrameCount(s, e));
    }
  }

  lemma AllReservedStep(s: State, entries: seq<Entry>, n: nat)
    requires n < |entries|
    ensures AllReserved(s, entries[..n + 1]) == AllReserved(s, entries[..n]) + ReservedFrames(s, entries[n])
  {
    hide ReservedFrames;
    var a, b := entries[..n], entries[..n + 1];
    forall f | f in AllReserved(s, b) ensures f in AllReserved(s, a) + ReservedFrames(s, entries[n]) {
      var i :| 0 <= i < |b| && f in ReservedFrames(s, b[i]);
      assert i < n ==> a[i] == b[i];
    }
    forall f | f in AllReserved(s, a) + ReservedFrames(s, entries[n]) ensures f in AllReserved(s, b) {
      if f in AllReserved(s, a) {
        var i :| 0 <= i < |a| && f in ReservedFrames(s, a[i]);
        assert b[i] == a[i];
      } else {
        assert b[n] == entries[n];
      }
    }
  }

  /** The entries mark exactly the frames they reserve. */
  lemma {:induction false} MarkEntriesUsed(s: State, entries: seq<Entry>, n: nat)
    requires s.Ok() && n <= |entries|
    ensures Used(MarkEntries(s, entries[..n])) == Used(s) + AllReserved(s, entries[..n])
  {
    hide Used, ReservedFrames, MarkEntry;
    if n > 0 {
      MarkEntriesUsed(s, entries, n - 1);
      assert entries[..n][..n - 1] == entries[..n - 1];
      var before := MarkEntries(s, entries[..n - 1]);
      MarkEntryUsed(before, entries[n - 1]);
      SameRegion(s, before, entries[n - 1]);
      AllReservedStep(s, entries, n - 1);
    } else {
      assert AllReserved(s, entries[..0]) == {};
    }
  }

  /** What an entry reserves depends on the region alone. */
  lemma SameRegion(s: State, t: State, e: Entry)
    requires s.base == t.base && s.size == t.size
    ensures ReservedFrames(s, e) == ReservedFrames(t, e)
  {
  }

  // ---------------------------------------------------------------- the counter

  /** No frame is reserved by two of the first `n` entries. */
  ghost predicate NoOverlap(s: State, entries: seq<Entry>, n: nat)
    requires n <= |entries|
  {
    forall i, j :: 0 <= i < j < n ==> ReservedFrames(s, entries[i]) !! ReservedFrames(s, entries[j])
  }

  lemma NoOverlapStep(s: State, entries: seq<Entry>, n: nat)
    requires n < |entries|
    ensures NoOverlap(s, entries, n + 1) <==>
      NoOverlap(s, entries, n) && AllReserved(s, entries[..n]) !! ReservedFrames(s, entries[n])
  {
    hide ReservedFrames;
    var a := entries[..n];
    if NoOverlap(s, entries, n + 1) {
      forall f | f in AllReserved(s, a) ensures f !in ReservedFrames(s, entries[n]) {
        var i :| 0 <= i < |a| && f in ReservedFrames(s, a[i]);
        assert ReservedFrames(s, entries[i]) !! ReservedFrames(s, entries[n]);
      }
    } else if NoOverlap(s, entries, n) {
      var i :| 0 <= i < n && !(ReservedFrames(s, entries[i]) !! ReservedFrames(s, entries[n]));
      var f :| f in ReservedFrames(s, entries[i]) && f in ReservedFrames(s, entries[n]);
      assert a[i] == entries[i];
      assert f in AllReserved(s, a);
    }
  }

  lemma UnionSize(a: set<nat>, b: set<nat>)
    ensures |a + b| <= |a| + |b|
    ensures |a + b| == |a| + |b| <==> a !! b
  {
    assert |a + b| + |a * b| == |a| + |b|;
    if a !! b {
      assert a * b == {};
    } else {
      var x :| x in a && x in b;
      assert x in a * b;
    }
  }

  /** The counter never falls short, and is exact when no frame was counted twice and only then. */
  lemma {:induction false} MarkEntriesCount(s: State, entries: seq<Entry>, n: nat)
    requires s.Ok() && n <= |entries| && Used(s) == {} && s.used == 0
    ensures var m := MarkEntries(s, entries[..n]);
      && m.used >= |Used(m)|
      && (m.used == |Used(m)| <==> NoOverlap(s, entries, n))
  {
    hide Used, ReservedFrames, MarkEntry, NoOverlap;
    if n > 0 {
      MarkEntriesCount(s, entries, n - 1);
      MarkEntriesUsed(s, entries, n - 1);
      assert entries[..n][..n - 1] == entries[..n - 1];
      var before := MarkEntries(s, entries[..n - 1]);
      MarkEntryUsed(before, entries[n - 1]);
      SameRegion(s, before, entries[n - 1]);
      NoOverlapStep(s, entries, n - 1);
      UnionSize(AllReserved(s, entries[..n - 1]), ReservedFrames(s, entries[n - 1]));
      assert {} + AllReserved(s, entries[..n - 1]) == AllReserved(s, entries[..n - 1]);
    } else {
      NoOverlapTrivial(s, entries);
    }
  }

  lemma NoOverlapTrivial(s: State, entries: seq<Entry>)
    ensures NoOverlap(s, entries, 0)
  {
  }

  // ---------------------------------------------------------------- the state after initialisation

  /** The frames pmm_init marks: reserved entries, the bitmap's own pages, and the first 2 MiB of the region. */
  ghost predicate MarkedByInit(base: nat, size: nat, entries: seq<Entry>, f: nat) {
    var s := Empty(base, size);
    var bytes := BitmapBytes(size);
    var first := BitmapFrame(BitmapLocation(entries, bytes), base);
    f < s.Total() && (f in AllReserved(s, entries) || first <= f < first + PagesOf(bytes) || f < KERNEL_FRAMES)
  }

  lemma InitUsed(base: nat, size: nat, entries: seq<Entry>, f: nat)
    ensures f in Used(Init(base, size, entries)) <==> MarkedByInit(base, size, entries, f)
  {
    hide Used, Empty, MarkEntries, ClaimRun, AllReserved, BitmapFrame, PagesOf, BitmapBytes, BitmapLocation;
    var s := Empty(base, size);
    var bytes := BitmapBytes(size);
    var first := BitmapFrame(BitmapLocation(entries, bytes), base);
    var marked := MarkEntries(s, entries);
    var withBitmap := ClaimRun(marked, first, PagesOf(bytes));
    EmptyUsed(base, size);
    assert entries[..|entries|] == entries;
    MarkEntriesUsed(s, entries, |entries|);
    UsedBelowTotal(marked, f);
    ClaimRunMember(marked, first, PagesOf(bytes), f);
    ClaimRunMember(withBitmap, 0, Min(KERNEL_FRAMES, withBitmap.Total()), f);
    EmptyRegion(base, size);
  }

  lemma EmptyRegion(base: nat, size: nat)
    ensures var s := Empty(base, size); s.base == base && s.size == size && s.used == 0
  {
  }

  lemma UsedBelowTotal(s: State, f: nat)
    requires s.Ok()
    ensures f in Used(s) ==> f < s.Total()
  {
  }

  /**
    used_frames equals the number of marked frames if and only if the reserved entries' frame ranges do not
    overlap.
   */
  lemma InitCount(base: nat, size: nat, entries: seq<Entry>)
    ensures var s := Init(base, size, entries);
      && s.used >= |Used(s)|
      && (s.used == |Used(s)| <==> NoOverlap(Empty(base, size), entries, |entries|))
  {
    hide Used, Empty, MarkEntries, ClaimRun, AllReserved, BitmapFrame, PagesOf, BitmapBytes, BitmapLocation, NoOverlap;
    var s := Empty(base, size);
    var bytes := BitmapBytes(size);
    var first := BitmapFrame(BitmapLocation(entries, bytes), base);
    var marked := MarkEntries(s, entries);
    var withBitmap := ClaimRun(marked, first, PagesOf(bytes));
    EmptyUsed(base, size);
    EmptyRegion(base, size);
    assert entries[..|entries|] == entries;
    MarkEntriesCount(s, entries, |entries|);
    ClaimRunExcess(marked, first, PagesOf(bytes));
    ClaimRunExcess(withBitmap, 0, Min(KERNEL_FRAMES, withBitmap.Total()));
  }

  /** Any reserved entry that is listed twice makes the counter run ahead of the bitmap. */
  lemma DoubleCounted(base: nat, size: nat, e: Entry)
    requires Reserves(Empty(base, size), e) && FrameCount(Empty(base, size), e) > 0
    ensures var s := Init(base, size, [e, e]); s.used > |Used(s)|
  {
    hide Init, Used;
    var twice := [e, e];
    InitCount(base, size, twice);
    var s := Empty(base, size);
    assert StartFrame(s, e) in ReservedFrames(s, twice[0]) * ReservedFrames(s, twice[1]);
  }
}
