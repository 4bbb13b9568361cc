/** Block headers as the bytes of the heap region, and what writing a field of one does. */
module HeapMemory {
  import opened LittleEndian
  import opened BlockList

  const HEAP_MAGIC: nat := 0xDEADBEEF
  /** The heap region and the HDR bytes after it, so that a header read at any heap address is a read of this memory. */
  const MEM_SIZE: nat := HEAP_SIZE + HDR
  /** Sizes and addresses of the heap fit in 24 bits. */
  const SMALL: nat := 0x100_0000

  datatype Header = Header(magic: nat, size: nat, free: byte, next: nat, prev: nat)

  predicate InHeap(p: nat) {
    HEAP_START <= p < HEAP_END
  }

  predicate Apart(p: nat, q: nat) {
    p + HDR <= q || q + HDR <= p
  }

  // ---------------------------------------------------------------- reading

  /** The `n` bytes at distance `d` from address `p`. */
  function Bytes(m: seq<byte>, p: nat, d: nat, n: nat): (s: seq<byte>)
    requires |m| == MEM_SIZE && InHeap(p) && d + n <= HDR
    ensures |s| == n
  {
    m[p - HEAP_START + d..p - HEAP_START + d + n]
  }

  /** The packed struct at `p`: magic, size, is_free, next, prev. */
  function Load(m: seq<byte>, p: nat): (h: Header)
    requires |m| == MEM_SIZE && InHeap(p)
  {
    Header(FromBytes(Bytes(m, p, 0, 4)), FromBytes(Bytes(m, p, 4, 8)), Bytes(m, p, 12, 1)[0],
           FromBytes(Bytes(m, p, 13, 8)), FromBytes(Bytes(m, p, 21, 8)))
  }

  /** is_valid_block: the magic number is in place and the address is in the heap. */
  predicate ValidBlock(m: seq<byte>, p: int)
    requires |m| == MEM_SIZE
  {
    p > 0 && InHeap(p) && Load(m, p).magic == HEAP_MAGIC
  }

  // ---------------------------------------------------------------- frames

  ghost predicate SameBytes(m: seq<byte>, m': seq<byte>, lo: int, hi: int)
    requires |m| == |m'|
  {
    forall k :: 0 <= k < |m| && lo <= k < hi ==> m'[k] == m[k]
  }

  lemma LoadDependsOnHeader(m: seq<byte>, m': seq<byte>, p: nat)
    requires |m| == |m'| == MEM_SIZE && InHeap(p)
    requires SameBytes(m, m', p - HEAP_START, p - HEAP_START + HDR)
    ensures Load(m', p) == Load(m, p)
  {
    assert Bytes(m', p, 0, 4) == Bytes(m, p, 0, 4);
    assert Bytes(m', p, 4, 8) == Bytes(m, p, 4, 8);
    assert Bytes(m', p, 12, 1) == Bytes(m, p, 12, 1);
    assert Bytes(m', p, 13, 8) == Bytes(m, p, 13, 8);
    assert Bytes(m', p, 21, 8) == Bytes(m, p, 21, 8);
  }

  /** `m'` differs from `m` at most in the header at `p`. */
  ghost predicate OnlyHeader(m: seq<byte>, m': seq<byte>, p: nat)
    requires |m| == |m'| == MEM_SIZE && InHeap(p)
  {
    && (forall q: nat :: InHeap(q) && Apart(p, q) ==> Load(m', q) == Load(m, q))
    && SameBytes(m, m', 0, p - HEAP_START)
    && SameBytes(m, m', p - HEAP_START + HDR, MEM_SIZE)
  }

  // ---------------------------------------------------------------- writing a field

  /** `m'` is `m` with the `|s|` bytes at distance `d` from address `p` replaced by `s`. */
  ghost predicate Written(m: seq<byte>, m': seq<byte>, p: nat, d: nat, s: seq<byte>)
    requires |m| == MEM_SIZE && InHeap(p) && d + |s| <= HDR
  {
    var o := p - HEAP_START + d;
    && |m'| == |m|
    && m'[o..o + |s|] == s
    && SameBytes(m, m', 0, o)
    && SameBytes(m, m', o + |s|, MEM_SIZE)
  }

  lemma WrittenInHeader(m: seq<byte>, m': seq<byte>, p: nat, d: nat, s: seq<byte>)
    requires |m| == MEM_SIZE && InHeap(p) && d + |s| <= HDR && Written(m, m', p, d, s)
    ensures OnlyHeader(m, m', p)
  {
    forall q: nat | InHeap(q) && Apart(p, q) ensures Load(m', q) == Load(m, q) {
      LoadDependsOnHeader(m, m', q);
    }
  }

  /** The fields that the write at distance `d` does not reach keep their bytes. */
  lemma WrittenOther(m: seq<byte>, m': seq<byte>, p: nat, d: nat, s: seq<byte>, e: nat, n: nat)
    requires |m| == MEM_SIZE && InHeap(p) && d + |s| <= HDR && Written(m, m', p, d, s)
    requires e + n <= HDR && (e + n <= d || d + |s| <= e)
    ensures Bytes(m', p, e, n) == Bytes(m, p, e, n)
  {
  }

  /** The header at `p`, given the bytes of its fields. */
  lemma LoadFields(m: seq<byte>, p: nat, magic: seq<byte>, size: seq<byte>, free: seq<byte>, next: seq<byte>,
      prev: seq<byte>)
    requires |m| == MEM_SIZE && InHeap(p)
    requires magic == Bytes(m, p, 0, 4) && size == Bytes(m, p, 4, 8) && free == Bytes(m, p, 12, 1)
    requires next == Bytes(m, p, 13, 8) && prev == Bytes(m, p, 21, 8)
    ensures Load(m, p) == Header(FromBytes(magic), FromBytes(size), free[0], FromBytes(next), FromBytes(prev))
  {
  }

  lemma LoadMagicWritten(m: seq<byte>, m': seq<byte>, p: nat, s: seq<byte>)
    requires |m| == MEM_SIZE && InHeap(p) && |s| == 4 && Written(m, m', p, 0, s)
    ensures Load(m', p) == Load(m, p).(magic := FromBytes(s))
  {
    WrittenOther(m, m', p, 0, s, 4, 8);
    WrittenOther(m, m', p, 0, s, 12, 1);
    WrittenOther(m, m', p, 0, s, 13, 8);
    WrittenOther(m, m', p, 0, s, 21, 8);
    LoadFields(m', p, s, Bytes(m, p, 4, 8), Bytes(m, p, 12, 1), Bytes(m, p, 13, 8), Bytes(m, p, 21, 8));
  }

  lemma LoadSizeWritten(m: seq<byte>, m': seq<byte>, p: nat, s: seq<byte>)
    requires |m| == MEM_SIZE && InHeap(p) && |s| == 8 && Written(m, m', p, 4, s)
    ensures Load(m', p) == Load(m, p).(size := FromBytes(s))
  {
    WrittenOther(m, m', p, 4, s, 0, 4);
    WrittenOther(m, m', p, 4, s, 12, 1);
    WrittenOther(m, m', p, 4, s, 13, 8);
    WrittenOther(m, m', p, 4, s, 21, 8);
    LoadFields(m', p, Bytes(m, p, 0, 4), s, Bytes(m, p, 12, 1), Bytes(m, p, 13, 8), Bytes(m, p, 21, 8));
  }

  lemma LoadFreeWritten(m: seq<byte>, m': seq<byte>, p: nat, s: seq<byte>)
    requires |m| == MEM_SIZE && InHeap(p) && |s| == 1 && Written(m, m', p, 12, s)
    ensures Load(m', p) == Load(m, p).(free := s[0])
  {
    WrittenOther(m, m', p, 12, s, 0, 4);
    WrittenOther(m, m', p, 12, s, 4, 8);
    WrittenOther(m, m', p, 12, s, 13, 8);
    WrittenOther(m, m', p, 12, s, 21, 8);
    LoadFields(m', p, Bytes(m, p, 0, 4), Bytes(m, p, 4, 8), s, Bytes(m, p, 13, 8), Bytes(m, p, 21, 8));
  }

  lemma LoadNextWritten(m: seq<byte>, m': seq<byte>, p: nat, s: seq<byte>)
    requires |m| == MEM_SIZE && InHeap(p) && |s| == 8 && Written(m, m', p, 13, s)
    ensures Load(m', p) == Load(m, p).(next := FromBytes(s))
  {
    WrittenOther(m, m', p, 13, s, 0, 4);
    WrittenOther(m, m', p, 13, s, 4, 8);
    WrittenOther(m, m', p, 13, s, 12, 1);
    WrittenOther(m, m', p, 13, s, 21, 8);
    LoadFields(m', p, Bytes(m, p, 0, 4), Bytes(m, p, 4, 8), Bytes(m, p, 12, 1), s, Bytes(m, p, 21, 8));
  }

  lemma LoadPrevWritten(m: seq<byte>, m': seq<byte>, p: nat, s: seq<byte>)
    requires |m| == MEM_SIZE && InHeap(p) && |s| == 8 && Written(m, m', p, 21, s)
    ensures Load(m', p) == Load(m, p).(prev := FromBytes(s))
  {
    WrittenOther(m, m', p, 21, s, 0, 4);
    WrittenOther(m, m', p, 21, s, 4, 8);
    WrittenOther(m, m', p, 21, s, 12, 1);
    WrittenOther(m, m', p, 21, s, 13, 8);
    LoadFields(m', p, Bytes(m, p, 0, 4), Bytes(m, p, 4, 8), Bytes(m, p, 12, 1), Bytes(m, p, 13, 8), s);
  }

  // ---------------------------------------------------------------- the magic number in memory

  /** The four bytes at index `k` are those of HEAP_MAGIC, lowest first. */
  predicate MagicAt(m: seq<byte>, k: nat)
    requires k + 4 <= |m|
  {
    m[k] == 0xEF && m[k + 1] == 0xBE && m[k + 2] == 0xAD && m[k + 3] == 0xDE
  }

  lemma MagicBytes(m: seq<byte>, p: nat)
    requires |m| == MEM_SIZE && InHeap(p)
    ensures MagicAt(m, p - HEAP_START) <==> Load(m, p).magic == HEAP_MAGIC
  {
    var o := p - HEAP_START;
    FromFourBytes(m[o..o + 4]);
  }

  lemma FromFourBytes(s: seq<byte>)
    requires |s| == 4
    ensures MagicAt(s, 0) <==> FromBytes(s) == HEAP_MAGIC
  {
    var b0: int, b1: int, b2: int, b3: int := s[0], s[1], s[2], s[3];
    var s1 := s[1..];
    var s2 := s1[1..];
    var s3 := s2[1..];
    assert s3[1..] == [];
    assert FromBytes(s3) == b3;
    assert FromBytes(s2) == b2 + 256 * b3;
    assert FromBytes(s1) == b1 + 256 * (b2 + 256 * b3);
    assert FromBytes(s) == b0 + 256 * (b1 + 256 * (b2 + 256 * b3));
  }

  /** `m'` spells the magic number nowhere that `m` does not, except possibly at address `p`. */
  ghost predicate NoNewMagic(m: seq<byte>, m': seq<byte>, p: nat)
    requires |m| == |m'| == MEM_SIZE
  {
    forall k: nat :: k < HEAP_SIZE && MagicAt(m', k) ==> MagicAt(m, k) || HEAP_START + k == p
  }

  /** Bytes 0 and 1 do not occur in the magic number, so writing them cannot spell it. */
  lemma HarmlessWrite(m: seq<byte>, m': seq<byte>, lo: nat, hi: nat)
    requires |m| == |m'| == MEM_SIZE && lo <= hi <= MEM_SIZE
    requires SameBytes(m, m', 0, lo) && SameBytes(m, m', hi, MEM_SIZE)
    requires forall k :: lo <= k < hi ==> m'[k] == 0 || m'[k] == 1
    ensures NoNewMagic(m, m', NULL)
  {
    forall k: nat | k < HEAP_SIZE && MagicAt(m', k) ensures MagicAt(m, k) {
      assert m'[k] == m[k] && m'[k + 1] == m[k + 1] && m'[k + 2] == m[k + 2] && m'[k + 3] == m[k + 3];
    }
  }

  /** A small number (24 bits) spells no magic number provided the byte before it cannot begin one. */
  lemma SmallNumberWrite(m: seq<byte>, m': seq<byte>, o: nat)
    requires |m| == |m'| == MEM_SIZE && 4 <= o && o + 8 <= MEM_SIZE
    requires SameBytes(m, m', 0, o) && SameBytes(m, m', o + 8, MEM_SIZE)
    requires forall k :: o + 3 <= k < o + 8 ==> m'[k] == 0
    requires m[o - 1] <= 1 || MagicAt(m, o - 4)
    ensures NoNewMagic(m, m', NULL)
  {
    assert m'[o - 1] == m[o - 1] && m'[o - 2] == m[o - 2] && m'[o - 3] == m[o - 3];
    forall k: nat | k < HEAP_SIZE && MagicAt(m', k) ensures MagicAt(m, k) {
      assert m'[k] == m[k] && m'[k + 1] == m[k + 1] && m'[k + 2] == m[k + 2] && m'[k + 3] == m[k + 3];
    }
  }

  /** Writing the magic number itself spells it there and nowhere else: it does not overlap a copy of itself. */
  lemma MagicWrite(m: seq<byte>, m': seq<byte>, p: nat)
    requires |m| == |m'| == MEM_SIZE && InHeap(p)
    requires SameBytes(m, m', 0, p - HEAP_START) && SameBytes(m, m', p - HEAP_START + 4, MEM_SIZE)
    requires MagicAt(m', p - HEAP_START)
    ensures NoNewMagic(m, m', p)
  {
    var o := p - HEAP_START;
    forall k: nat | k < HEAP_SIZE && MagicAt(m', k) && k != o ensures MagicAt(m, k) {
      assert m'[k] == m[k] && m'[k + 1] == m[k + 1] && m'[k + 2] == m[k + 2] && m'[k + 3] == m[k + 3];
    }
  }

  lemma NoNewMagicThen(m: seq<byte>, m1: seq<byte>, m': seq<byte>, p: nat)
    requires |m| == |m1| == |m'| == MEM_SIZE
    requires NoNewMagic(m, m1, p) && NoNewMagic(m1, m', NULL)
    ensures NoNewMagic(m, m', p)
  {
  }

  lemma OtherHeader(m: seq<byte>, m': seq<byte>, p: nat, q: nat)
    requires |m| == |m'| == MEM_SIZE && InHeap(p) && InHeap(q) && Apart(p, q)
    requires OnlyHeader(m, m', p)
    ensures Load(m', q) == Load(m, q)
  {
  }
}
