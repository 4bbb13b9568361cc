/** How kernel_main sets up physical memory: the boot information, the region to manage, and the frame allocator. */
module Boot {
  import opened BitOps
  import opened LittleEndian
  import opened MemoryMap
  import opened Multiboot
  import Pmm
  import PmmInit

  ghost predicate AllFit(es: seq<Entry>) {
    forall k :: 0 <= k < |es| ==> EntryFits(es[k])
  }

  /** What stands in the bytes of an entry fits its fields. */
  lemma {:induction false} ReadEntriesFit(m: seq<byte>, at: nat, end: nat, step: nat, es: seq<Entry>)
    requires EntriesAt(m, at, end, step, es)
    ensures AllFit(es)
    decreases |es|
  {
    if es != [] {
      Pow256Values();
      ReadEntriesFit(m, at + step, end, step, es[1..]);
      assert es == [es[0]] + es[1..];
    }
  }

  lemma {:induction false} ReadTagsFit(m: seq<byte>, at: nat, total: nat, tags: seq<Tag>)
    requires TagsAt(m, at, total, tags)
    ensures AllFit(AllEntries(tags))
    decreases |tags|
  {
    hide EntriesAt, EntryFits, Word, Padded;
    if tags != [] {
      var size := Word(m, at + 4, 4);
      ReadTagsFit(m, at + Padded(size), total, tags[1..]);
      if tags[0].Mmap? {
        ReadEntriesFit(m, at + 16, at + size, tags[0].entrySize, tags[0].entries);
      }
    }
  }

  lemma ChosenFits(entries: seq<Entry>, base: nat, size: nat)
    requires AllFit(entries) && IsChosenRegion(entries, base, size)
    ensures base < TWO64 && size < TWO64
  {
  }

  /** The allocator manages the region chosen from the memory map that the boot loader described. */
  method SetUpMemory(address: nat, m: seq<byte>, ghost tags: seq<Tag>) returns (info: Info, pmm: Pmm.FrameAllocator)
    requires address != 0 && address % 8 == 0 ==> |m| >= 8 && TagsAt(m, 8, Word(m, 0, 4), tags)
    ensures info.entries == if address == 0 || address % 8 != 0 then [] else FirstOf(AllEntries(tags))
    ensures fresh(pmm) && pmm.Valid()
    ensures IsChosenRegion(info.entries, pmm.memoryBase, pmm.memorySize)
    ensures pmm.State() == PmmInit.Init(pmm.memoryBase, pmm.memorySize, info.entries)
    ensures pmm.bitmapAddr == BitmapLocation(info.entries, PmmInit.BitmapBytes(pmm.memorySize))
  {
    hide TagsAt, Word, EntryFits, IsChosenRegion, PmmInit.Init, BitmapLocation, PmmInit.BitmapBytes;
    if address != 0 && address % 8 == 0 {
      ReadTagsFit(m, 8, Word(m, 0, 4), tags);
    }
    info := MemoryDetect(address, m, tags);
    var base, size := ChooseRegion(info.entries);
    ChosenFits(info.entries, base, size);
    pmm := new Pmm.FrameAllocator.Init(base, size, info.entries);
  }
}
