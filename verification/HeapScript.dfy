/** Whole runs on the heap's own memory: any script of calls, with callers writing in their payloads between them. */
module HeapScript {
  import opened LittleEndian
  import opened BlockList
  import opened HeapMemory
  import opened HeapLinks
  import HeapOps
  import opened HeapTheorems
  import opened Heap

  /** A call of the heap's interface, or one byte that a caller writes. */
  datatype Action = Do(call: Call) | Write(p: nat, v: byte)

  // ---------------------------------------------------------------- what callers may do

  function After(s: HeapOps.State, a: Action): HeapOps.State
    requires a.Do? ==> a.call.Fits()
  {
    if a.Do? then Step(s, a.call) else s
  }

  /** Address `p` lies in the payload of block `i`, which is live. */
  predicate InPayload(bs: seq<Block>, i: nat, p: nat) {
    i < |bs| && !bs[i].free && bs[i].addr + HDR <= p < bs[i].End()
  }

  ghost predicate Owned(bs: seq<Block>, p: nat) {
    exists i: nat :: InPayload(bs, i, p)
  }

  /** NULL, the pointer of a listed block, or one whose header would lie outside the heap. */
  predicate Known(bs: seq<Block>, ptr: nat) {
    ptr < HDR || !InHeap(ptr - HDR) || HeapOps.BlockOf(bs, ptr) < |bs|
  }

  predicate KnownPointers(bs: seq<Block>, c: Call) {
    match c
    case CallFree(ptr) => Known(bs, ptr)
    case CallRealloc(ptr, _) => Known(bs, ptr)
    case _ => true
  }

  /** Any admissible call, and any write to a live payload. */
  ghost predicate Allowed(s: HeapOps.State, a: Action) {
    match a
    case Do(c) => Admissible(s, c)
    case Write(p, _) => Owned(s.blocks, p)
  }

  ghost predicate Lawful(s: HeapOps.State, script: seq<Action>)
    decreases |script|
  {
    script == [] || (Allowed(s, script[0]) && Lawful(After(s, script[0]), script[1..]))
  }

  /** Actions after which payloads still spell no magic number. */
  predicate KeepsClean(s: HeapOps.State, a: Action)
    requires a.Do? ==> a.call.Fits()
  {
    match a
    case Do(c) => c.CallRealloc? ==> HeapOps.AsksForMore(s, c.ptr, c.newSize)
    case Write(_, v) => v !in MAGIC_BYTES
  }

  /** Calls take known pointers, except as long as payloads are known to spell no magic number. */
  ghost predicate Safe(s: HeapOps.State, clean: bool, script: seq<Action>)
    requires Lawful(s, script)
    decreases |script|
  {
    script == []
    || ((clean || (script[0].Do? ==> KnownPointers(s.blocks, script[0].call)))
        && Safe(After(s, script[0]), clean && KeepsClean(s, script[0]), script[1..]))
  }

  /** Whether payloads are known to spell no magic number at the end. */
  ghost function CleanAfter(s: HeapOps.State, clean: bool, script: seq<Action>): bool
    requires Lawful(s, script)
    decreases |script|
  {
    if script == [] then clean
    else CleanAfter(After(s, script[0]), clean && KeepsClean(s, script[0]), script[1..])
  }

  function Calls(script: seq<Action>): seq<Call> {
    if script == [] then []
    else (if script[0].Do? then [script[0].call] else []) + Calls(script[1..])
  }

  lemma CallsStep(script: seq<Action>)
    requires script != []
    ensures script[0].Do? ==> Calls(script) != [] && Calls(script)[0] == script[0].call
                              && Calls(script)[1..] == Calls(script[1..])
    ensures script[0].Write? ==> Calls(script) == Calls(script[1..])
  {
  }

  // ---------------------------------------------------------------- what callers may rely on

  /** The blocks that are live at every point of a script. */
  ghost function Lasting(s: HeapOps.State, script: seq<Action>): set<Block>
    requires Lawful(s, script)
    decreases |script|
  {
    if script == [] then Live(s.blocks)
    else Live(s.blocks) * Lasting(After(s, script[0]), script[1..])
  }

  /** What address `p` holds after a script in which only the caller's writes matter. */
  function Stored(script: seq<Action>, p: nat, v: byte): byte
    decreases |script|
  {
    if script == [] then v
    else Stored(script[1..], p, if script[0].Write? && script[0].p == p then script[0].v else v)
  }

  function ByteAt(m: seq<byte>, p: nat): byte
    requires |m| == MEM_SIZE && InHeap(p)
  {
    m[p - HEAP_START]
  }

  /** The payloads of the blocks `live` hold what they held, and what was written to them since. */
  ghost predicate HoldsWrites(m: seq<byte>, m': seq<byte>, live: set<Block>, script: seq<Action>)
    requires |m| == |m'| == MEM_SIZE
  {
    forall b, p: nat :: b in live && b.addr + HDR <= p < b.End() && InHeap(p) ==>
      ByteAt(m', p) == Stored(script, p, ByteAt(m, p))
  }

  lemma KeptHolds(m: seq<byte>, m': seq<byte>, live: set<Block>, c: Call)
    requires |m| == |m'| == MEM_SIZE && PayloadsKept(m, m', live)
    ensures HoldsWrites(m, m', live, [Do(c)])
  {
    forall b, p: nat | b in live && b.addr + HDR <= p < b.End() && InHeap(p)
      ensures ByteAt(m', p) == Stored([Do(c)], p, ByteAt(m, p))
    {
      assert SameBytes(m, m', b.addr + HDR - HEAP_START, b.End() - HEAP_START);
      StoredOne(Do(c), p, ByteAt(m, p));
    }
  }

  lemma StoredOne(a: Action, p: nat, v: byte)
    ensures Stored([a], p, v) == if a.Write? && a.p == p then a.v else v
  {
    var one := [a];
    assert one[1..] == [];
  }

  lemma WriteHolds(m: seq<byte>, m': seq<byte>, live: set<Block>, q: nat, v: byte)
    requires |m| == |m'| == MEM_SIZE && InHeap(q) && m' == m[q - HEAP_START := v]
    ensures HoldsWrites(m, m', live, [Write(q, v)])
  {
    forall b, p: nat | b in live && b.addr + HDR <= p < b.End() && InHeap(p)
      ensures ByteAt(m', p) == Stored([Write(q, v)], p, ByteAt(m, p))
    {
      StoredOne(Write(q, v), p, ByteAt(m, p));
    }
  }

  lemma HoldsLess(m: seq<byte>, m': seq<byte>, live: set<Block>, fewer: set<Block>, script: seq<Action>)
    requires |m| == |m'| == MEM_SIZE && HoldsWrites(m, m', live, script) && fewer <= live
    ensures HoldsWrites(m, m', fewer, script)
  {
  }

  lemma HoldsThen(m: seq<byte>, m1: seq<byte>, m': seq<byte>, before: set<Block>, lasting: set<Block>,
      script: seq<Action>)
    requires |m| == |m1| == |m'| == MEM_SIZE && script != []
    requires HoldsWrites(m, m1, before, [script[0]]) && HoldsWrites(m1, m', lasting, script[1..])
    ensures HoldsWrites(m, m', before * lasting, script)
  {
    forall b, p: nat | b in before * lasting && b.addr + HDR <= p < b.End() && InHeap(p)
      ensures ByteAt(m', p) == Stored(script, p, ByteAt(m, p))
    {
      StoredOne(script[0], p, ByteAt(m, p));
    }
  }

  // ---------------------------------------------------------------- performing a script

  lemma PointerIsGenuine(m: seq<byte>, bs: seq<Block>, ptr: nat)
    requires |m| == MEM_SIZE && Linked(m, bs) && (Unforged(m, bs) || Known(bs, ptr))
    ensures ValidBlock(m, ptr - HDR) ==> HeapOps.BlockOf(bs, ptr) < |bs|
  {
    hide Linked, Unforged, Load;
    if ValidBlock(m, ptr - HDR) && Unforged(m, bs) {
      MagicMarksBlocks(m, bs, ptr - HDR);
    }
  }

  /** No payload bytes pose as the header of the pointer that the call is given, if it is given one. */
  ghost predicate GenuineCall(heap: KernelHeap, call: Call)
    requires heap.mem.Length == MEM_SIZE
    reads heap, heap.mem
  {
    match call
    case CallFree(ptr) => heap.Genuine(ptr)
    case CallRealloc(ptr, _) => heap.Genuine(ptr)
    case _ => true
  }

  /** Looks a pointer up in the list. */
  method IsGenuine(heap: KernelHeap, ptr: nat) returns (ok: bool)
    requires heap.Valid() && heap.heapInitialized
    ensures ok == heap.Genuine(ptr)
  {
    hide Linked, Load;
    if ptr < HDR || !ValidBlock(heap.mem[..], ptr - HDR) { return true; }
    var current := heap.heapHead;
    ghost var k := 0;
    FirstBlock(heap.mem[..], heap.blocks);
    while current != NULL
      invariant k <= |heap.blocks| && current == AddrOrNull(heap.blocks, k)
      invariant current != NULL <==> k < |heap.blocks|
      invariant forall j :: 0 <= j < k ==> heap.blocks[j].addr + HDR != ptr
      decreases |heap.blocks| - k
    {
      Surroundings(heap.mem[..], heap.blocks, k);
      if current + HDR == ptr { return true; }
      current := Load(heap.mem[..], current).next;
      k := k + 1;
    }
    return false;
  }

  method IsGenuineCall(heap: KernelHeap, call: Call) returns (ok: bool)
    requires heap.Valid() && heap.heapInitialized
    ensures ok == GenuineCall(heap, call)
  {
    hide Linked;
    match call {
      case CallFree(ptr) => ok := IsGenuine(heap, ptr);
      case CallRealloc(ptr, _) => ok := IsGenuine(heap, ptr);
      case _ => ok := true;
    }
  }

  method Perform(heap: KernelHeap, call: Call)
    requires heap.Valid() && heap.heapInitialized && Admissible(heap.State(), call) && GenuineCall(heap, call)
    modifies heap, heap.mem
    ensures heap.Valid() && heap.State() == Step(old(heap.State()), call)
    ensures old(Unforged(heap.mem[..], heap.blocks) && KeepsClean(heap.State(), Do(call))) ==>
      Unforged(heap.mem[..], heap.blocks)
    ensures PayloadsKept(old(heap.mem[..]), heap.mem[..], Live(old(heap.blocks)) * Live(heap.blocks))
  {
    hide Linked, Unforged, PayloadsKept, Live, HeapOps.Malloc, HeapOps.Calloc, HeapOps.Realloc, HeapOps.Free;
    hide NoAdjacentFree, ZeroFrom, Copied, HeapOps.CopyFits, HeapOps.AsksForMore;
    ghost var m0 := heap.mem[..];
    ghost var live := Live(heap.blocks);
    match call {
      case CallMalloc(size, alignment) =>
        var p := heap.KmallocAligned(size, alignment);
        KeptLess(m0, heap.mem[..], live, live * Live(heap.blocks));
      case CallCalloc(nmemb, size) =>
        var p := heap.Kcalloc(nmemb, size);
        KeptLess(m0, heap.mem[..], live, live * Live(heap.blocks));
      case CallRealloc(ptr, newSize) =>
        var p := heap.Krealloc(ptr, newSize);
      case CallFree(ptr) =>
        heap.Kfree(ptr);
        KeptLess(m0, heap.mem[..], Live(heap.blocks), live * Live(heap.blocks));
    }
  }

  /** One action. */
  method Act(heap: KernelHeap, a: Action)
    requires heap.Valid() && heap.heapInitialized && Allowed(heap.State(), a)
    requires a.Do? ==> GenuineCall(heap, a.call)
    modifies heap, heap.mem
    ensures heap.Valid() && heap.State() == After(old(heap.State()), a)
    ensures old(Unforged(heap.mem[..], heap.blocks) && KeepsClean(heap.State(), a)) ==>
      Unforged(heap.mem[..], heap.blocks)
    ensures a.Write? && old(Unforged(heap.mem[..], heap.blocks)) ==>
      (Unforged(heap.mem[..], heap.blocks) <==> NoMagicAround(heap.mem[..], heap.blocks, a.p))
    ensures HoldsWrites(old(heap.mem[..]), heap.mem[..], Live(old(heap.blocks)) * Live(heap.blocks), [a])
  {
    hide Linked, Unforged, PayloadsKept, Live, HoldsWrites, Step, NoMagicAround;
    ghost var m0 := heap.mem[..];
    ghost var live := Live(heap.blocks);
    match a {
      case Do(call) =>
        Perform(heap, call);
        KeptHolds(m0, heap.mem[..], live * Live(heap.blocks), call);
      case Write(p, v) =>
        ghost var i: nat :| InPayload(heap.blocks, i, p);
        Surroundings(m0, heap.blocks, i);
        heap.WritePayload(p, v, i);
        WriteHolds(m0, heap.mem[..], live * Live(heap.blocks), p, v);
    }
  }

  lemma StepReady(s: HeapOps.State, a: Action)
    requires s.ready && (a.Do? ==> a.call.Fits())
    ensures After(s, a).ready
  {
  }

  /** Known pointers, and all pointers while no payload spells the magic number, are genuine. */
  lemma SafeIsGenuine(heap: KernelHeap, clean: bool, a: Action)
    requires heap.Valid() && heap.heapInitialized
    requires clean ==> Unforged(heap.mem[..], heap.blocks)
    requires clean || (a.Do? ==> KnownPointers(heap.blocks, a.call))
    ensures a.Do? ==> GenuineCall(heap, a.call)
  {
    hide Linked, Unforged, Known, ValidBlock;
    match a {
      case Do(CallFree(ptr)) => PointerIsGenuine(heap.mem[..], heap.blocks, ptr);
      case Do(CallRealloc(ptr, _)) => PointerIsGenuine(heap.mem[..], heap.blocks, ptr);
      case _ =>
    }
  }

  lemma Prefix(script: seq<Action>, n: nat)
    requires n < |script|
    ensures script[..n + 1][0] == script[0] && script[..n + 1][1..] == script[1..][..n]
  {
  }

  /**
    A script, up to the first call whose pointer is not genuine in the memory at hand. The list stays valid, the state
    is that of the run of the calls made, and each block that is live throughout holds what it held at first and what
    its owner has written since. A safe script is performed to its end.
   */
  method Play(heap: KernelHeap, script: seq<Action>, ghost clean: bool) returns (done: nat)
    requires heap.Valid() && heap.heapInitialized && Lawful(heap.State(), script)
    requires clean ==> Unforged(heap.mem[..], heap.blocks)
    modifies heap, heap.mem
    ensures heap.Valid() && done <= |script|
    ensures Lawful(old(heap.State()), script[..done]) && AllAdmissible(old(heap.State()), Calls(script[..done]))
    ensures heap.State() == Run(old(heap.State()), Calls(script[..done]))
    ensures HoldsWrites(old(heap.mem[..]), heap.mem[..], Lasting(old(heap.State()), script[..done]), script[..done])
    ensures done < |script| ==> script[done].Do? && !GenuineCall(heap, script[done].call)
    ensures Safe(old(heap.State()), clean, script) ==>
      done == |script| && (CleanAfter(old(heap.State()), clean, script) ==> Unforged(heap.mem[..], heap.blocks))
    decreases |script|
  {
    hide Linked, Unforged, HoldsWrites, KeepsClean, Step, Live, HeapOps.CopyFits, GenuineCall, KnownPointers;
    hide NoMagicAround;
    if script == [] {
      NothingHolds(heap.mem[..], Live(heap.blocks));
      return 0;
    }
    ghost var m0, s0 := heap.mem[..], heap.State();
    if Safe(s0, clean, script) { SafeIsGenuine(heap, clean, script[0]); }
    if script[0].Do? {
      var ok := IsGenuineCall(heap, script[0].call);
      if !ok {
        NothingHolds(heap.mem[..], Live(heap.blocks));
        return 0;
      }
    }
    ghost var still := clean && KeepsClean(s0, script[0]);
    StepReady(s0, script[0]);
    Act(heap, script[0]);
    ghost var m1, s1 := heap.mem[..], heap.State();
    ghost var both := Live(s0.blocks) * Live(s1.blocks);
    done := Play(heap, script[1..], still);
    ghost var first, rest := script[..done + 1], script[1..][..done];
    Prefix(script, done);
    CallsStep(first);
    LastingIsLive(s1, rest);
    HoldsThen(m0, m1, heap.mem[..], both, Lasting(s1, rest), first);
    HoldsLess(m0, heap.mem[..], both * Lasting(s1, rest), Lasting(s0, first), first);
    done := done + 1;
  }

  lemma LastingIsLive(s: HeapOps.State, script: seq<Action>)
    requires Lawful(s, script)
    ensures Lasting(s, script) <= Live(s.blocks)
  {
  }

  lemma NothingHolds(m: seq<byte>, live: set<Block>)
    requires |m| == MEM_SIZE
    ensures HoldsWrites(m, m, live, [])
  {
  }
}
