/** One bit per frame, 32 to a word, as memory.c keeps them. */
module Bitmap {

  // ---------------------------------------------------------------- one word

  predicate Bit(w: bv32, b: bv32)
    requires b < 32
  {
    w & (1 << b) != 0
  }

  function OrMask(w: bv32, b: bv32): bv32
    requires b < 32
  {
    w | (1 << b)
  }

  function AndNotMask(w: bv32, b: bv32): bv32
    requires b < 32
  {
    w & !(1 << b)
  }

  // The three operations as the source writes them.

  lemma TestOp(w: bv32, b: bv32)
    requires b < 32
    ensures Bit(w, b) <==> w & (1 << b) != 0
  {
  }

  lemma SetOp(w: bv32, b: bv32)
    requires b < 32
    ensures OrMask(w, b) == w | (1 << b)
  {
  }

  lemma ClearOp(w: bv32, b: bv32)
    requires b < 32
    ensures AndNotMask(w, b) == w & !(1 << b)
  {
  }

  lemma OrWord(w: bv32, b: bv32, c: bv32, o: bv32)
    requires b < 32 && c < 32 && o == w | (1 << b)
    ensures Bit(o, c) <==> Bit(w, c) || b == c
  {
  }

  lemma AndNotWord(w: bv32, b: bv32, c: bv32, o: bv32)
    requires b < 32 && c < 32 && o == w & !(1 << b)
    ensures Bit(o, c) <==> Bit(w, c) && b != c
  {
  }

  lemma OrBit(w: bv32, b: bv32, c: bv32)
    requires b < 32 && c < 32
    ensures Bit(OrMask(w, b), c) <==> Bit(w, c) || b == c
  {
    hide Bit;
    OrWord(w, b, c, OrMask(w, b));
  }

  lemma AndNotBit(w: bv32, b: bv32, c: bv32)
    requires b < 32 && c < 32
    ensures Bit(AndNotMask(w, b), c) <==> Bit(w, c) && b != c
  {
    hide Bit;
    AndNotWord(w, b, c, AndNotMask(w, b));
  }

  lemma OrThenAndNot(w: bv32, b: bv32)
    requires b < 32 && !Bit(w, b)
    ensures AndNotMask(OrMask(w, b), b) == w
  {
  }

  lemma OrAndNotCommute(w: bv32, b: bv32, c: bv32)
    requires b < 32 && c < 32 && b != c
    ensures AndNotMask(OrMask(w, b), c) == OrMask(AndNotMask(w, c), b)
  {
  }

  // ---------------------------------------------------------------- bitmaps

  /** The words hold a bit for every frame below `total`. */
  predicate Covers(ws: seq<bv32>, total: nat) {
    total <= 32 * |ws|
  }

  lemma BitRoundTrip(b: nat)
    requires b < 32
    ensures (b as bv32) as nat == b
  {
  }

  lemma BitSmall(b: nat)
    requires b < 32
    ensures b as bv32 < 32
  {
  }

  /** frame_index % 32 as the 32-bit shift count. */
  function BitOf(f: nat): (b: bv32)
    ensures b < 32
  {
    BitSmall(f % 32);
    (f % 32) as bv32
  }

  lemma SameBit(f: nat, g: nat)
    requires BitOf(f) == BitOf(g) && f / 32 == g / 32
    ensures f == g
  {
    BitRoundTrip(f % 32);
    BitRoundTrip(g % 32);
  }

  predicate IsSet(ws: seq<bv32>, f: nat)
    requires f < 32 * |ws|
  {
    Bit(ws[f / 32], BitOf(f))
  }

  function SetFrame(ws: seq<bv32>, f: nat): (r: seq<bv32>)
    requires f < 32 * |ws|
    ensures |r| == |ws|
  {
    ws[f / 32 := OrMask(ws[f / 32], BitOf(f))]
  }

  function ClearFrame(ws: seq<bv32>, f: nat): (r: seq<bv32>)
    requires f < 32 * |ws|
    ensures |r| == |ws|
  {
    ws[f / 32 := AndNotMask(ws[f / 32], BitOf(f))]
  }

  lemma SetFrameBits(ws: seq<bv32>, f: nat, g: nat)
    requires f < 32 * |ws| && g < 32 * |ws|
    ensures IsSet(SetFrame(ws, f), g) <==> IsSet(ws, g) || f == g
  {
    hide Bit, OrMask, BitOf;
    OrBit(ws[f / 32], BitOf(f), BitOf(g));
    if f / 32 == g / 32 && BitOf(f) == BitOf(g) { SameBit(f, g); }
  }

  lemma ClearFrameBits(ws: seq<bv32>, f: nat, g: nat)
    requires f < 32 * |ws| && g < 32 * |ws|
    ensures IsSet(ClearFrame(ws, f), g) <==> IsSet(ws, g) && f != g
  {
    hide Bit, AndNotMask, BitOf;
    AndNotBit(ws[f / 32], BitOf(f), BitOf(g));
    if f / 32 == g / 32 && BitOf(f) == BitOf(g) { SameBit(f, g); }
  }

  lemma ClearUndoesSet(ws: seq<bv32>, f: nat)
    requires f < 32 * |ws| && !IsSet(ws, f)
    ensures ClearFrame(SetFrame(ws, f), f) == ws
  {
    hide Bit, OrMask, AndNotMask, BitOf;
    OrThenAndNot(ws[f / 32], BitOf(f));
  }

  lemma SetClearCommute(ws: seq<bv32>, f: nat, g: nat)
    requires f < 32 * |ws| && g < 32 * |ws| && f != g
    ensures ClearFrame(SetFrame(ws, f), g) == SetFrame(ClearFrame(ws, g), f)
  {
    hide Bit, OrMask, AndNotMask, BitOf;
    if BitOf(f) != BitOf(g) {
      OrAndNotCommute(ws[f / 32], BitOf(f), BitOf(g));
    } else if f / 32 == g / 32 {
      SameBit(f, g);
    }
  }

  /** The used frames below `total`. */
  ghost function UsedSet(ws: seq<bv32>, total: nat): set<nat>
    requires Covers(ws, total)
  {
    set f: nat | f < total && IsSet(ws, f)
  }

  /** The `count` frames from `start` on. */
  ghost function Frames(start: nat, count: nat): (r: set<nat>)
    ensures forall f :: f in r <==> start <= f < start + count
  {
    if count == 0 then {} else Frames(start, count - 1) + {start + count - 1}
  }

  lemma UsedAfterSet(ws: seq<bv32>, total: nat, f: nat)
    requires Covers(ws, total) && f < total
    ensures UsedSet(SetFrame(ws, f), total) == UsedSet(ws, total) + {f}
  {
    hide IsSet;
    forall g: nat | g < total ensures IsSet(SetFrame(ws, f), g) <==> IsSet(ws, g) || f == g {
      SetFrameBits(ws, f, g);
    }
  }

  lemma UsedAfterClear(ws: seq<bv32>, total: nat, f: nat)
    requires Covers(ws, total) && f < total
    ensures UsedSet(ClearFrame(ws, f), total) == UsedSet(ws, total) - {f}
  {
    hide IsSet;
    forall g: nat | g < total ensures IsSet(ClearFrame(ws, f), g) <==> IsSet(ws, g) && f != g {
      ClearFrameBits(ws, f, g);
    }
  }

  lemma {:induction false} FramesSize(start: nat, count: nat)
    ensures |Frames(start, count)| == count
  {
    if count > 0 {
      FramesSize(start, count - 1);
    }
  }

  lemma UsedBounded(ws: seq<bv32>, total: nat)
    requires Covers(ws, total)
    ensures |UsedSet(ws, total)| <= total
  {
    FramesSize(0, total);
    SubsetSize(UsedSet(ws, total), Frames(0, total));
  }

  lemma {:induction false} SubsetSize(a: set<nat>, b: set<nat>)
    requires a <= b
    ensures |a| <= |b|
    decreases |a|
  {
    if a != {} {
      var x :| x in a;
      SubsetSize(a - {x}, b - {x});
    }
  }
}
