/** The walk over Multiboot2 boot information by memory_detect, and the encoding it inverts. */
module Multiboot {
  import opened BitOps
  import opened LittleEndian
  import opened MemoryMap

  const TAG_END: nat := 0
  const TAG_BASIC_MEMINFO: nat := 4
  const TAG_MMAP: nat := 6
  const MEMORY_MAP_SIZE: nat := 256

  /** Basic memory information, a memory map with its entry size, and every other kind of tag with its payload. */
  datatype Tag =
    | BasicMeminfo(lower: nat, upper: nat)
    | Mmap(entrySize: nat, entries: seq<Entry>)
    | Other(kind: nat, payload: seq<byte>)

  datatype Info = Info(entries: seq<Entry>, totalMemory: nat, availableMemory: nat)

  const NoInfo: Info := Info([], 0, 0)

  // ---------------------------------------------------------------- what the tags mean

  /** One entry of the memory map: kept while there is room, and counted only if kept. */
  function AddEntry(i: Info, e: Entry): Info {
    if |i.entries| < MEMORY_MAP_SIZE then
      Info(i.entries + [e], (i.totalMemory + e.length) % TWO64,
           if e.kind == AVAILABLE then (i.availableMemory + e.length) % TWO64 else i.availableMemory)
    else i
  }

  function AddEntries(i: Info, es: seq<Entry>): Info
    decreases |es|
  {
    if es == [] then i else AddEntries(AddEntry(i, es[0]), es[1..])
  }

  /** The products with 1024 are taken in 32 bits. */
  function BasicTotal(lower: nat, upper: nat): nat {
    lower * 1024 % TWO32 + upper * 1024 % TWO32
  }

  function Apply(i: Info, t: Tag): Info {
    match t
    case BasicMeminfo(lower, upper) =>
      i.(totalMemory := BasicTotal(lower, upper), availableMemory := BasicTotal(lower, upper))
    case Mmap(_, entries) => AddEntries(i, entries)
    case Other(_, _) => i
  }

  function ApplyAll(i: Info, tags: seq<Tag>): Info
    decreases |tags|
  {
    if tags == [] then i else ApplyAll(Apply(i, tags[0]), tags[1..])
  }

  function AllEntries(tags: seq<Tag>): seq<Entry> {
    if tags == [] then []
    else EntriesOf(tags[0]) + AllEntries(tags[1..])
  }

  function FirstOf(es: seq<Entry>): seq<Entry> {
    if |es| <= MEMORY_MAP_SIZE then es else es[..MEMORY_MAP_SIZE]
  }

  lemma {:induction false} AddEntriesKeepsFirst(i: Info, es: seq<Entry>)
    requires |i.entries| <= MEMORY_MAP_SIZE
    ensures AddEntries(i, es).entries == FirstOf(i.entries + es)
    decreases |es|
  {
    if es == [] {
      assert i.entries + es == i.entries;
    } else {
      AddEntriesKeepsFirst(AddEntry(i, es[0]), es[1..]);
      assert i.entries + es == (i.entries + [es[0]]) + es[1..];
    }
  }

  lemma FirstOfTwice(a: seq<Entry>, b: seq<Entry>)
    ensures FirstOf(FirstOf(a) + b) == FirstOf(a + b)
  {
  }

  function EntriesOf(t: Tag): seq<Entry> {
    if t.Mmap? then t.entries else []
  }

  lemma ApplyKeepsFirst(i: Info, t: Tag)
    requires |i.entries| <= MEMORY_MAP_SIZE
    ensures Apply(i, t).entries == FirstOf(i.entries + EntriesOf(t))
  {
    hide AddEntries;
    AddEntriesKeepsFirst(i, EntriesOf(t));
    assert EntriesOf(t) == [] ==> i.entries + EntriesOf(t) == i.entries;
  }

  lemma {:induction false} ApplyAllKeepsFirst(i: Info, tags: seq<Tag>)
    requires |i.entries| <= MEMORY_MAP_SIZE
    ensures ApplyAll(i, tags).entries == FirstOf(i.entries + AllEntries(tags))
    decreases |tags|
  {
    hide Apply, EntriesOf, FirstOf, AllEntries;
    AllEntriesStep(i, tags);
    if tags != [] {
      ApplyKeepsFirst(i, tags[0]);
      AtMostAll(i.entries + EntriesOf(tags[0]));
      ApplyAllKeepsFirst(Apply(i, tags[0]), tags[1..]);
      FirstOfTwice(i.entries + EntriesOf(tags[0]), AllEntries(tags[1..]));
    }
  }

  lemma AtMostAll(es: seq<Entry>)
    ensures |FirstOf(es)| <= MEMORY_MAP_SIZE
  {
  }

  lemma AllEntriesStep(i: Info, tags: seq<Tag>)
    requires |i.entries| <= MEMORY_MAP_SIZE
    ensures tags == [] ==> FirstOf(i.entries + AllEntries(tags)) == i.entries
    ensures tags != [] ==>
      i.entries + AllEntries(tags) == (i.entries + EntriesOf(tags[0])) + AllEntries(tags[1..])
  {
    hide EntriesOf;
    if tags == [] {
      assert i.entries + AllEntries(tags) == i.entries;
    }
  }

  /** The stored entries are the first 256 of all the memory maps, in order. */
  lemma StoredEntries(tags: seq<Tag>)
    ensures ApplyAll(NoInfo, tags).entries == FirstOf(AllEntries(tags))
    ensures FirstOf(AllEntries(tags)) == if |AllEntries(tags)| <= 256 then AllEntries(tags) else AllEntries(tags)[..256]
  {
    ApplyAllKeepsFirst(NoInfo, tags);
    assert [] + AllEntries(tags) == AllEntries(tags);
  }

  /** The lengths of the entries that are wanted: all of them, or those of kind 1. */
  function TotalLength(es: seq<Entry>, all: bool): nat {
    if es == [] then 0
    else TotalLength(es[..|es| - 1], all) + if all || es[|es| - 1].kind == 1 then es[|es| - 1].length else 0
  }

  /** `r` has kept the entries of `i` and stored more, and its totals have grown by their lengths, modulo 2^64. */
  ghost predicate TotalsGrow(i: Info, r: Info) {
    && i.entries <= r.entries
    && r.totalMemory % TWO64 == (i.totalMemory + TotalLength(r.entries[|i.entries|..], true)) % TWO64
    && r.availableMemory % TWO64 == (i.availableMemory + TotalLength(r.entries[|i.entries|..], false)) % TWO64
  }

  lemma TotalsSame(i: Info)
    ensures TotalsGrow(i, i)
  {
  }

  lemma AddEntryTotals(i: Info, r: Info, e: Entry)
    requires TotalsGrow(i, r)
    ensures TotalsGrow(i, AddEntry(r, e))
  {
    hide TotalLength;
    if |r.entries| < MEMORY_MAP_SIZE {
      var es := r.entries[|i.entries|..];
      assert (r.entries + [e])[|i.entries|..] == es + [e];
      TotalAppend(es, e);
      SameRemainder(r.totalMemory, i.totalMemory + TotalLength(es, true), e.length);
      SameRemainder(r.availableMemory, i.availableMemory + TotalLength(es, false), e.length);
    }
  }

  lemma TotalAppend(es: seq<Entry>, e: Entry)
    ensures TotalLength(es + [e], true) == TotalLength(es, true) + e.length
    ensures TotalLength(es + [e], false) == TotalLength(es, false) + if e.kind == AVAILABLE then e.length else 0
  {
    assert (es + [e])[..|es|] == es;
  }

  lemma SameRemainder(a: nat, b: nat, c: nat)
    requires a % TWO64 == b % TWO64
    ensures (a + c) % TWO64 % TWO64 == (b + c) % TWO64
  {
    Remainder(a, TWO64, c);
    Remainder(b, TWO64, c);
  }

  lemma Remainder(a: nat, w: nat, c: nat)
    requires w > 0
    ensures (a + c) % w == (a % w + c) % w
  {
    var q, r := (a % w + c) / w, (a % w + c) % w;
    assert a + c == (a / w + q) * w + r;
    DivModUnique(a + c, w, a / w + q, r);
  }

  lemma {:induction false} AddEntriesTotals(i: Info, r: Info, es: seq<Entry>)
    requires TotalsGrow(i, r)
    ensures TotalsGrow(i, AddEntries(r, es))
    decreases |es|
  {
    hide TotalsGrow, AddEntry;
    if es != [] {
      AddEntryTotals(i, r, es[0]);
      AddEntriesTotals(i, AddEntry(r, es[0]), es[1..]);
    }
  }

  lemma {:induction false} ApplyAllTotals(i: Info, r: Info, tags: seq<Tag>)
    requires TotalsGrow(i, r) && forall k :: 0 <= k < |tags| ==> !tags[k].BasicMeminfo?
    ensures TotalsGrow(i, ApplyAll(r, tags))
    decreases |tags|
  {
    hide TotalsGrow, AddEntries;
    if tags != [] {
      if tags[0].Mmap? { AddEntriesTotals(i, r, tags[0].entries); }
      ApplyAllTotals(i, Apply(r, tags[0]), tags[1..]);
    }
  }

  lemma {:induction false} TotalsSmall(i: Info, tags: seq<Tag>)
    requires i.totalMemory < TWO64 && i.availableMemory < TWO64
    ensures ApplyAll(i, tags).totalMemory < TWO64 && ApplyAll(i, tags).availableMemory < TWO64
    decreases |tags|
  {
    hide AddEntries;
    if tags != [] {
      if tags[0].Mmap? { EntriesSmall(i, tags[0].entries); }
      TotalsSmall(Apply(i, tags[0]), tags[1..]);
    }
  }

  lemma {:induction false} EntriesSmall(i: Info, es: seq<Entry>)
    requires i.totalMemory < TWO64 && i.availableMemory < TWO64
    ensures AddEntries(i, es).totalMemory < TWO64 && AddEntries(i, es).availableMemory < TWO64
    decreases |es|
  {
    if es != [] { EntriesSmall(AddEntry(i, es[0]), es[1..]); }
  }

  /** `r` holds more entries than `stored`, and `bytes` and their lengths, modulo 2^64, as its totals. */
  ghost predicate Counted(stored: seq<Entry>, bytes: nat, r: Info) {
    && stored <= r.entries
    && r.totalMemory == (bytes + TotalLength(r.entries[|stored|..], true)) % TWO64
    && r.availableMemory == (bytes + TotalLength(r.entries[|stored|..], false)) % TWO64
  }

  lemma TotalsFrom(i: Info, bytes: nat, tags: seq<Tag>)
    requires i.totalMemory == i.availableMemory == bytes < TWO64
    requires forall k :: 0 <= k < |tags| ==> !tags[k].BasicMeminfo?
    ensures Counted(i.entries, bytes, ApplyAll(i, tags))
  {
    hide ApplyAll, TotalsGrow, Counted;
    TotalsSame(i);
    ApplyAllTotals(i, i, tags);
    TotalsSmall(i, tags);
    SmallTotals(i, bytes, ApplyAll(i, tags));
  }

  lemma SmallTotals(i: Info, bytes: nat, r: Info)
    requires TotalsGrow(i, r) && r.totalMemory < TWO64 && r.availableMemory < TWO64
    requires i.totalMemory == i.availableMemory == bytes
    ensures Counted(i.entries, bytes, r)
  {
    hide TotalLength;
  }

  /** Without basic memory information the totals are the sums over the stored entries, modulo 2^64. */
  lemma TotalsWithoutBasic(tags: seq<Tag>)
    requires forall k :: 0 <= k < |tags| ==> !tags[k].BasicMeminfo?
    ensures var info := ApplyAll(NoInfo, tags);
      && info.totalMemory == TotalLength(info.entries, true) % TWO64
      && info.availableMemory == TotalLength(info.entries, false) % TWO64
  {
    hide ApplyAll, TotalLength;
    TotalsFrom(NoInfo, 0, tags);
    var entries := ApplyAll(NoInfo, tags).entries;
    assert entries[0..] == entries;
  }

  /**
    Basic memory information replaces both totals by its own, in bytes. The products are taken in 32 bits, so the
    bytes are those reported if and only if both parts are below 4 GiB.
   */
  lemma BasicTotals(i: Info, lower: nat, upper: nat)
    ensures var r := Apply(i, BasicMeminfo(lower, upper));
      && r.entries == i.entries && r.totalMemory == r.availableMemory
      && r.totalMemory == (lower % 0x40_0000 + upper % 0x40_0000) * 1024
      && (r.totalMemory == (lower + upper) * 1024 <==> lower < 0x40_0000 && upper < 0x40_0000)
  {
    KilobytesWrap(lower);
    KilobytesWrap(upper);
  }

  lemma KilobytesWrap(k: nat)
    ensures k * 1024 % TWO32 == (k % 0x40_0000) * 1024
    ensures k % 0x40_0000 <= k && (k % 0x40_0000 == k <==> k < 0x40_0000)
  {
    var q, r := k / 0x40_0000, k % 0x40_0000;
    assert k * 1024 == q * TWO32 + r * 1024;
    DivModUnique(k * 1024, TWO32, q, r * 1024);
  }

  /** Whatever tags came before it, what is stored after basic memory information is added to the bytes it gives. */
  lemma TotalsAfterBasic(before: seq<Tag>, lower: nat, upper: nat, after: seq<Tag>)
    requires forall k :: 0 <= k < |after| ==> !after[k].BasicMeminfo?
    ensures Counted(ApplyAll(NoInfo, before).entries, (lower % 0x40_0000 + upper % 0x40_0000) * 1024,
                    ApplyAll(NoInfo, before + [BasicMeminfo(lower, upper)] + after))
  {
    hide ApplyAll, Apply, Counted;
    var basic := BasicMeminfo(lower, upper);
    var bytes := (lower % 0x40_0000 + upper % 0x40_0000) * 1024;
    BasicTotals(ApplyAll(NoInfo, before), lower, upper);
    ApplyAllConcat(NoInfo, before + [basic], after);
    ApplyAllConcat(NoInfo, before, [basic]);
    ApplyOne(ApplyAll(NoInfo, before), basic);
    BytesSmall(lower, upper);
    TotalsFrom(Apply(ApplyAll(NoInfo, before), basic), bytes, after);
  }

  lemma BytesSmall(lower: nat, upper: nat)
    ensures (lower % 0x40_0000 + upper % 0x40_0000) * 1024 < TWO64
  {
  }

  lemma ApplyOne(i: Info, t: Tag)
    ensures ApplyAll(i, [t]) == Apply(i, t)
  {
    var one := [t];
    assert one[1..] == [];
  }

  lemma {:induction false} ApplyAllConcat(i: Info, a: seq<Tag>, b: seq<Tag>)
    ensures ApplyAll(i, a + b) == ApplyAll(ApplyAll(i, a), b)
    decreases |a|
  {
    hide Apply;
    if a == [] {
      assert a + b == b;
    } else {
      ApplyAllConcat(Apply(i, a[0]), a[1..], b);
      assert (a + b)[1..] == a[1..] + b;
    }
  }

  // ---------------------------------------------------------------- the bytes

  function Word(m: seq<byte>, at: nat, n: nat): (v: nat)
    requires at + n <= |m|
  {
    FromBytes(m[at..at + n])
  }

  /** (size + 7) & ~7, in 32 bits. */
  function Padded(size: nat): nat
    requires size < TWO32
  {
    BitAnd((size + 7) % TWO32, TWO32 - 8)
  }

  lemma PaddedMeaning(size: nat)
    requires size + 7 < TWO32
    ensures Padded(size) == size + Padding(size)
    ensures Padded(size) % 8 == 0
  {
    TwoToThe32IsPow2();
    PaddedIn(size, TWO32, 8);
  }

  lemma PaddedIn(size: nat, w: nat, al: nat)
    requires size + 7 < w == TWO32 && al == 8 && IsPow2(w)
    ensures Padded(size) == size + Padding(size)
    ensures Padded(size) % 8 == 0
  {
    assert IsPow2(al);
    hide BitAnd, IsPow2, Padding;
    MaskMeaning(size + 7, w, al);
    DivModUnique(size + 7, w, 0, size + 7);
    DropRemainder(size + 7, al);
    PaddingRoundsUp(size);
  }

  lemma PaddingRoundsUp(size: nat)
    ensures size + 7 - (size + 7) % 8 == size + Padding(size)
  {
  }

  /** The bytes between a tag and the next multiple of 8. */
  function Padding(size: nat): nat {
    (8 - size % 8) % 8
  }

  lemma LowThreeBits(a: nat)
    ensures BitAnd(a, 7) == a % 8
  {
    assert IsPow2(8) && IsPow2(1);
    hide BitAnd, IsPow2;
    MaskMeaning(a, 8, 1);
  }

  // ---------------------------------------------------------------- the encoder

  predicate EntryFits(e: Entry) {
    e.base < TWO64 && e.length < TWO64 && e.kind < TWO32
  }

  /** What the fields of a tag can hold. */
  predicate TagFits(t: Tag) {
    && TagSize(t) + 7 < TWO32
    && match t
       case BasicMeminfo(lower, upper) => lower < TWO32 && upper < TWO32
       case Mmap(entrySize, entries) =>
         24 <= entrySize < TWO32 && forall k :: 0 <= k < |entries| ==> EntryFits(entries[k])
       case Other(kind, payload) => kind < TWO32 && kind !in {TAG_END, TAG_BASIC_MEMINFO, TAG_MMAP}
  }

  function TagSize(t: Tag): nat {
    match t
    case BasicMeminfo(_, _) => 16
    case Mmap(entrySize, entries) => 16 + |entries| * entrySize
    case Other(_, payload) => 8 + |payload|
  }

  function Zeros(n: nat): (s: seq<byte>)
    ensures |s| == n
  {
    seq(n, _ => 0)
  }

  function EncodeEntry(e: Entry, step: nat): (s: seq<byte>)
    requires step >= 24
    ensures |s| == step
  {
    ToBytes(e.base, 8) + ToBytes(e.length, 8) + ToBytes(e.kind, 4) + Zeros(step - 20)
  }

  function EncodeEntries(es: seq<Entry>, step: nat): (s: seq<byte>)
    requires step >= 24
    ensures |s| == |es| * step
  {
    if es == [] then [] else EncodeEntry(es[0], step) + EncodeEntries(es[1..], step)
  }

  function EncodeBody(t: Tag): (s: seq<byte>)
    requires TagFits(t)
    ensures |s| == TagSize(t) - 8
  {
    match t
    case BasicMeminfo(lower, upper) => ToBytes(lower, 4) + ToBytes(upper, 4)
    case Mmap(entrySize, entries) => ToBytes(entrySize, 4) + Zeros(4) + EncodeEntries(entries, entrySize)
    case Other(_, payload) => payload
  }

  function Kind(t: Tag): nat {
    match t
    case BasicMeminfo(_, _) => 4
    case Mmap(_, _) => 6
    case Other(kind, _) => kind
  }

  function EncodeTag(t: Tag): (s: seq<byte>)
    requires TagFits(t)
    ensures |s| == TagSize(t) + Padding(TagSize(t))
  {
    ToBytes(Kind(t), 4) + ToBytes(TagSize(t), 4) + EncodeBody(t) + Zeros(Padding(TagSize(t)))
  }

  /** The tags in order, each padded to a multiple of 8 bytes, and the end tag. */
  function EncodeTags(tags: seq<Tag>): (s: seq<byte>)
    requires forall k :: 0 <= k < |tags| ==> TagFits(tags[k])
    ensures |s| >= 8
  {
    if tags == [] then ToBytes(TAG_END, 4) + ToBytes(8, 4) else EncodeTag(tags[0]) + EncodeTags(tags[1..])
  }

  /** The boot information of section 3.4 of the Multiboot2 Specification 2.0. */
  function Encode(tags: seq<Tag>): (s: seq<byte>)
    requires forall k :: 0 <= k < |tags| ==> TagFits(tags[k])
  {
    var body := EncodeTags(tags);
    ToBytes(8 + |body|, 4) + Zeros(4) + body
  }

  // ---------------------------------------------------------------- well-formed boot information

  ghost predicate EntryAt(m: seq<byte>, at: nat, e: Entry) {
    at + 24 <= |m| && Word(m, at, 8) == e.base && Word(m, at + 8, 8) == e.length && Word(m, at + 16, 4) == e.kind
  }

  /** Entries `step` bytes apart, from `at` up to `end`. */
  ghost predicate EntriesAt(m: seq<byte>, at: nat, end: nat, step: nat, es: seq<Entry>)
    decreases |es|
  {
    if es == [] then at == end
    else at < end && EntryAt(m, at, es[0]) && EntriesAt(m, at + step, end, step, es[1..])
  }

  ghost predicate BodyAt(m: seq<byte>, at: nat, size: nat, t: Tag)
  {
    match t
    case BasicMeminfo(lower, upper) =>
      at + 16 <= |m| && Word(m, at + 8, 4) == lower && Word(m, at + 12, 4) == upper
    case Mmap(entrySize, entries) =>
      && at + 16 <= |m| && Word(m, at + 8, 4) == entrySize
      && EntriesAt(m, at + 16, at + size, entrySize, entries)
    case Other(kind, _) => kind !in {TAG_END, TAG_BASIC_MEMINFO, TAG_MMAP}
  }

  /** A tag of `size` bytes at `at`. */
  ghost predicate TagAt(m: seq<byte>, at: nat, size: nat, t: Tag) {
    && at + 8 <= |m| && size + 7 < TWO32
    && Word(m, at, 4) == Kind(t) && Word(m, at + 4, 4) == size
    && BodyAt(m, at, size, t)
  }

  /** The tags from `at` on, each padded to 8 bytes, and then the end tag. */
  ghost predicate TagsAt(m: seq<byte>, at: nat, total: nat, tags: seq<Tag>)
    decreases |tags|
  {
    && at + 8 <= |m|
    && if tags == [] then Word(m, at, 4) == TAG_END
       else
         var size := Word(m, at + 4, 4);
         at < total && TagAt(m, at, size, tags[0]) && TagsAt(m, at + Padded(size), total, tags[1..])
  }

  lemma WordAt(m: seq<byte>, before: seq<byte>, v: nat, n: nat, after: seq<byte>)
    requires v < Pow256(n) && m == before + ToBytes(v, n) + after
    ensures Word(m, |before|, n) == v
  {
    assert m[|before|..|before| + n] == ToBytes(v, n);
    RoundTrip(v, n);
  }

  lemma EncodedEntry(m: seq<byte>, before: seq<byte>, e: Entry, step: nat, after: seq<byte>)
    requires step >= 24 && EntryFits(e) && m == before + EncodeEntry(e, step) + after
    ensures EntryAt(m, |before|, e)
  {
    hide Word, ToBytes, Pow256;
    Pow256Values();
    var a, l, k, z := ToBytes(e.base, 8), ToBytes(e.length, 8), ToBytes(e.kind, 4), Zeros(step - 20);
    assert m == before + a + (l + k + z + after);
    WordAt(m, before, e.base, 8, l + k + z + after);
    assert m == (before + a) + l + (k + z + after);
    WordAt(m, before + a, e.length, 8, k + z + after);
    assert m == (before + a + l) + k + (z + after);
    WordAt(m, before + a + l, e.kind, 4, z + after);
  }

  lemma {:induction false} EncodedEntries(m: seq<byte>, before: seq<byte>, es: seq<Entry>, step: nat, after: seq<byte>)
    requires step >= 24 && forall k :: 0 <= k < |es| ==> EntryFits(es[k])
    requires m == before + EncodeEntries(es, step) + after
    ensures EntriesAt(m, |before|, |before| + |es| * step, step, es)
    decreases |es|
  {
    hide EncodeEntry, EntryAt;
    if es != [] {
      var one, more := EncodeEntry(es[0], step), EncodeEntries(es[1..], step);
      assert m == before + one + (more + after);
      EncodedEntry(m, before, es[0], step, more + after);
      assert m == (before + one) + more + after;
      EncodedEntries(m, before + one, es[1..], step, after);
      assert |es| * step == step + |es[1..]| * step;
    }
  }

  lemma EncodedBody(m: seq<byte>, before: seq<byte>, t: Tag, after: seq<byte>)
    requires TagFits(t) && |before| >= 8 && m == before + EncodeBody(t) + after
    ensures BodyAt(m, |before| - 8, TagSize(t), t)
  {
    hide Word, ToBytes, Pow256, EncodeEntries, EntriesAt;
    Pow256Values();
    match t
    case BasicMeminfo(lower, upper) =>
      var l, u := ToBytes(lower, 4), ToBytes(upper, 4);
      assert m == before + l + (u + after);
      WordAt(m, before, lower, 4, u + after);
      assert m == (before + l) + u + after;
      WordAt(m, before + l, upper, 4, after);
    case Mmap(entrySize, entries) =>
      var s, z, es := ToBytes(entrySize, 4), Zeros(4), EncodeEntries(entries, entrySize);
      assert m == before + s + (z + es + after);
      WordAt(m, before, entrySize, 4, z + es + after);
      assert m == (before + s + z) + es + after;
      EncodedEntries(m, before + s + z, entries, entrySize, after);
    case Other(_, _) =>
  }

  lemma EncodedTag(m: seq<byte>, before: seq<byte>, t: Tag, after: seq<byte>)
    requires TagFits(t) && m == before + EncodeTag(t) + after
    ensures TagAt(m, |before|, TagSize(t), t)
  {
    hide Word, ToBytes, Pow256, EncodeBody, BodyAt;
    Pow256Values();
    var k, s, b, z := ToBytes(Kind(t), 4), ToBytes(TagSize(t), 4), EncodeBody(t), Zeros(Padding(TagSize(t)));
    assert m == before + k + (s + b + z + after);
    WordAt(m, before, Kind(t), 4, s + b + z + after);
    assert m == (before + k) + s + (b + z + after);
    WordAt(m, before + k, TagSize(t), 4, b + z + after);
    assert m == (before + k + s) + b + (z + after);
    EncodedBody(m, before + k + s, t, z + after);
  }

  lemma {:induction false} EncodedTags(m: seq<byte>, before: seq<byte>, tags: seq<Tag>)
    requires (forall k :: 0 <= k < |tags| ==> TagFits(tags[k])) && m == before + EncodeTags(tags)
    ensures TagsAt(m, |before|, |m|, tags)
    decreases |tags|
  {
    hide Word, ToBytes, Pow256, EncodeTag, TagAt, TagFits, Padded;
    Pow256Values();
    if tags == [] {
      WordAt(m, before, TAG_END, 4, ToBytes(8, 4));
    } else {
      var one, more := EncodeTag(tags[0]), EncodeTags(tags[1..]);
      assert m == before + one + more;
      EncodedTag(m, before, tags[0], more);
      TagAtSize(m, |before|, TagSize(tags[0]), tags[0]);
      EncodedTags(m, before + one, tags[1..]);
    }
  }

  lemma TagAtSize(m: seq<byte>, at: nat, size: nat, t: Tag)
    requires TagAt(m, at, size, t)
    ensures at + 8 <= |m| && Word(m, at + 4, 4) == size && Padded(size) == size + Padding(size)
  {
    PaddedMeaning(size);
  }

  /** Everything the encoder writes is well formed, and carries its own length. */
  lemma EncodedIsWellFormed(tags: seq<Tag>)
    requires forall k :: 0 <= k < |tags| ==> TagFits(tags[k])
    requires |Encode(tags)| < TWO32
    ensures Word(Encode(tags), 0, 4) == |Encode(tags)| && TagsAt(Encode(tags), 8, |Encode(tags)|, tags)
  {
    hide Word, ToBytes, Pow256, EncodeTags, TagsAt, TagFits;
    Pow256Values();
    var m, body := Encode(tags), EncodeTags(tags);
    var size := ToBytes(8 + |body|, 4);
    assert m == [] + size + (Zeros(4) + body);
    WordAt(m, [], |m|, 4, Zeros(4) + body);
    assert m == (size + Zeros(4)) + body;
    EncodedTags(m, size + Zeros(4), tags);
  }

  // ---------------------------------------------------------------- the walk

  /** The inner loop, over the entries of one memory map. */
  method WalkEntries(m: seq<byte>, at: nat, end: nat, step: nat, before: Info, ghost es: seq<Entry>)
      returns (info: Info)
    requires EntriesAt(m, at, end, step, es)
    ensures info == AddEntries(before, es)
  {
    hide Word;
    info := before;
    var p: nat := at;
    ghost var rest := es;
    while p < end
      invariant EntriesAt(m, p, end, step, rest) && AddEntries(info, rest) == AddEntries(before, es)
      decreases |rest|
    {
      var entry := Entry(Word(m, p, 8), Word(m, p + 8, 8), Word(m, p + 16, 4));
      ghost var was := info;
      if |info.entries| < MEMORY_MAP_SIZE {
        var total := (info.totalMemory + entry.length) % TWO64;
        var available := info.availableMemory;
        if entry.kind == AVAILABLE {
          available := (available + entry.length) % TWO64;
        }
        info := Info(info.entries + [entry], total, available);
      }
      assert info == AddEntry(was, rest[0]);
      rest := rest[1..];
      p := p + step;
    }
  }

  /** One turn of the outer loop: the effect of the tag at `at`, whatever its kind. */
  method ReadTag(m: seq<byte>, at: nat, size: nat, before: Info, ghost t: Tag) returns (info: Info)
    requires TagAt(m, at, size, t)
    ensures info == Apply(before, t)
  {
    hide Word, EntriesAt, AddEntries;
    info := before;
    var kind := Word(m, at, 4);
    if kind == TAG_BASIC_MEMINFO {
      var lowMemory := Word(m, at + 8, 4) * 1024 % TWO32;
      var highMemory := Word(m, at + 12, 4) * 1024 % TWO32;
      info := info.(totalMemory := lowMemory + highMemory, availableMemory := lowMemory + highMemory);
    } else if kind == TAG_MMAP {
      info := WalkEntries(m, at + 16, at + size, Word(m, at + 8, 4), info, t.entries);
    }
  }

  lemma FirstTag(m: seq<byte>, at: nat, total: nat, tags: seq<Tag>)
    requires TagsAt(m, at, total, tags)
    ensures at + 8 <= |m|
    ensures tags != [] ==> Word(m, at, 4) != TAG_END && at < total && Word(m, at + 4, 4) + 7 < TWO32
  {
    hide Word, EntriesAt;
  }

  /** memory_detect on the boot information `m` found at `address`. */
  method MemoryDetect(address: nat, m: seq<byte>, ghost tags: seq<Tag>) returns (info: Info)
    requires address != 0 && address % 8 == 0 ==> |m| >= 8 && TagsAt(m, 8, Word(m, 0, 4), tags)
    ensures info == if address == 0 || address % 8 != 0 then NoInfo else ApplyAll(NoInfo, tags)
    ensures info.entries == if address == 0 || address % 8 != 0 then [] else FirstOf(AllEntries(tags))
  {
    hide Word, Padded, Apply, BitAnd, AllEntries, FirstOf, TagAt;
    LowThreeBits(address);
    StoredEntries(tags);
    info := NoInfo;
    if address == 0 || BitAnd(address, 7) != 0 {
      return;
    }
    var totalSize := Word(m, 0, 4);
    var tag: nat := 8;
    ghost var rest := tags;
    while Word(m, tag, 4) != TAG_END && tag < totalSize
      invariant TagsAt(m, tag, totalSize, rest) && ApplyAll(info, rest) == ApplyAll(NoInfo, tags)
      decreases |rest|
    {
      FirstTag(m, tag, totalSize, rest);
      var size := Word(m, tag + 4, 4);
      info := ReadTag(m, tag, size, info, rest[0]);
      tag := tag + Padded(size);
      rest := rest[1..];
    }
    FirstTag(m, tag, totalSize, rest);
  }

  /** memory_detect recovers from an encoding the memory map that was encoded. */
  method DetectEncoded(address: nat, tags: seq<Tag>) returns (info: Info)
    requires 0 < address && address % 8 == 0
    requires forall k :: 0 <= k < |tags| ==> TagFits(tags[k])
    requires |Encode(tags)| < TWO32
    ensures info == ApplyAll(NoInfo, tags) && info.entries == FirstOf(AllEntries(tags))
  {
    hide Word, TagFits, ApplyAll, AllEntries, TagsAt, FirstOf;
    EncodedIsWellFormed(tags);
    info := MemoryDetect(address, Encode(tags), tags);
  }
}
