/** Bitwise operators on unsigned machine integers, and the rounding kmalloc.c builds from them. */
module BitOps {
  const TWO32: nat := 0x1_0000_0000
  const TWO64: nat := 0x1_0000_0000_0000_0000

  function BitAnd(a: nat, b: nat): (r: nat)
    ensures r <= a && r <= b
  {
    if a == 0 || b == 0 then 0
    else (if a % 2 == 1 && b % 2 == 1 then 1 else 0) + 2 * BitAnd(a / 2, b / 2)
  }

  /** The complement of a 32-bit value; zero-extended when it meets a 64-bit one. */
  function Not32(a: nat): nat
    requires a < TWO32
  {
    TWO32 - 1 - a
  }

  predicate IsPow2(a: nat) {
    a == 1 || (a > 0 && a % 2 == 0 && IsPow2(a / 2))
  }

  /** a & (a - 1) is zero exactly for the powers of two. */
  lemma {:induction false} PowerOfTwoTest(a: nat)
    requires a > 0
    ensures BitAnd(a, a - 1) == 0 <==> IsPow2(a)
  {
    if a % 2 == 0 {
      assert (a - 1) / 2 == a / 2 - 1;
      PowerOfTwoTest(a / 2);
    } else if a > 1 {
      AndSelf(a / 2);
    }
  }

  lemma {:induction false} AndSelf(a: nat)
    ensures BitAnd(a, a) == a
  {
    if a > 0 { AndSelf(a / 2); }
  }

  lemma ModHalves(t: nat, c: nat)
    requires c > 0
    ensures t % (2 * c) == t % 2 + 2 * ((t / 2) % c)
  {
    var q, r := (t / 2) / c, (t / 2) % c;
    assert t / 2 == q * c + r;
    assert t == q * (2 * c) + (t % 2 + 2 * r);
    DivModUnique(t, 2 * c, q, t % 2 + 2 * r);
  }

  lemma DivModUnique(t: nat, d: nat, q: nat, r: nat)
    requires d > 0 && t == q * d + r && r < d
    ensures t / d == q && t % d == r
  {
    var k := t / d - q;
    assert k * d == r - t % d by {
      assert (t / d) * d == q * d + k * d;
    }
    assert k >= 1 ==> k * d >= d;
    assert k <= -1 ==> k * d <= 0 - d;
  }

  /** The bits of `t` below the power of two `al`. */
  function LowBits(t: nat, al: nat): nat
    requires IsPow2(al)
  {
    if al == 1 then 0 else t % 2 + 2 * LowBits(t / 2, al / 2)
  }

  lemma {:induction false} LowBitsMeaning(t: nat, al: nat)
    requires IsPow2(al)
    ensures LowBits(t, al) == t % al
  {
    if al > 1 {
      ModHalves(t, al / 2);
      LowBitsMeaning(t / 2, al / 2);
    }
  }

  lemma {:induction false} MaskLowBits(t: nat, w: nat, al: nat)
    requires IsPow2(w) && IsPow2(al) && al <= w
    ensures BitAnd(t, w - al) == LowBits(t, w) - LowBits(t, al)
  {
    if w > 1 {
      MaskLowBits(t / 2, w / 2, if al == 1 then 1 else al / 2);
    }
  }

  /** Masking with w - al, both powers of two, drops the bits below al and from w up. */
  lemma MaskMeaning(t: nat, w: nat, al: nat)
    requires IsPow2(w) && IsPow2(al) && al <= w
    ensures BitAnd(t, w - al) == t % w - t % al
  {
    MaskLowBits(t, w, al);
    LowBitsMeaning(t, w);
    LowBitsMeaning(t, al);
  }

  // ---------------------------------------------------------------- align_up

  /** A sum of two 64-bit values, as 64 bits hold it. */
  function Wrap64(sum: nat): (r: nat)
    requires sum < 2 * TWO64
    ensures r == sum % TWO64
  {
    if sum < TWO64 then sum else sum - TWO64
  }

  /** `~(alignment - 1)` is computed in 32 bits, so the result has no bit above the 31st. */
  function AlignUp(value: nat, alignment: nat): nat
    requires value < TWO64 && alignment < TWO32
  {
    if alignment == 0 then value else BitAnd(Wrap64(value + alignment - 1), Not32(alignment - 1))
  }

  function Exp2(k: nat): (r: nat)
    ensures r > 0
  {
    if k == 0 then 1 else 2 * Exp2(k - 1)
  }

  lemma {:induction false} Exp2IsPow2(k: nat)
    ensures IsPow2(Exp2(k))
  {
    if k > 0 { Exp2IsPow2(k - 1); }
  }

  lemma DropRemainder(t: nat, al: nat)
    requires al > 0
    ensures (t - t % al) % al == 0
  {
    var q := t / al;
    assert t == q * al + t % al;
    DivModUnique(q * al, al, q, 0);
  }

  /** A power of two divides every larger one, so reduction modulo the larger keeps residues. */
  lemma {:induction false} Pow2Divides(w: nat, al: nat)
    requires IsPow2(w) && IsPow2(al) && al <= w
    ensures w % al == 0
  {
    if al > 1 {
      ModHalves(w, al / 2);
      Pow2Divides(w / 2, al / 2);
    }
  }

  lemma RoundingInside(value: nat, al: nat, w: nat)
    requires value > 0 && al > 0 && value + al - 1 < w
    ensures var t := value + al - 1; var r := t % w - t % al;
      r >= value && r % al == 0 && r < value + al
  {
    var t := value + al - 1;
    DivModUnique(t, w, 0, t);
    DropRemainder(t, al);
  }

  lemma RoundingOutside(value: nat, al: nat, w: nat)
    requires value > 0 && IsPow2(w) && IsPow2(al) && al <= w <= value + al - 1
    ensures var t := value + al - 1; t % w - t % al < value
  {
    var t := value + al - 1;
    ModBounds(t, w);
    ModBounds(t, al);
    if value < w {
      Pow2Divides(w, al);
      DivModUnique(t, w, 1, t - w);
      OneMultipleOff(t, w, al);
    }
  }

  lemma ModBounds(t: nat, d: nat)
    requires d > 0
    ensures 0 <= t % d < d
  {
  }

  lemma OneMultipleOff(t: nat, w: nat, al: nat)
    requires al > 0 && w % al == 0 && w <= t < w + al
    ensures t % al == t - w
  {
    var k := w / al;
    assert w == k * al;
    DivModUnique(t, al, k, t - w);
  }

  lemma TwoToThe32IsPow2()
    ensures IsPow2(TWO32)
  {
    Exp2IsPow2(32);
    assert Exp2(8) == 0x100;
    assert Exp2(16) == 0x1_0000;
    assert Exp2(24) == 0x100_0000;
    assert Exp2(32) == TWO32;
  }

  lemma AlignUpValue(value: nat, al: nat, w: nat)
    requires value < TWO64 && 0 < al < w == TWO32 && IsPow2(al) && IsPow2(w)
    ensures var t := Wrap64(value + al - 1); AlignUp(value, al) == t % w - t % al
    ensures AlignUp(value, al) < w
  {
    hide BitAnd, IsPow2, Wrap64;
    var t := Wrap64(value + al - 1);
    assert AlignUp(value, al) == BitAnd(t, w - al);
    MaskMeaning(t, w, al);
  }

  /**
    Rounding up is exact if and only if the rounding does not leave 32 bits; otherwise the result is smaller
    than the request.
   */
  lemma AlignUpExact(value: nat, al: nat)
    requires 0 < value < TWO64 && 0 < al < TWO32 && IsPow2(al)
    ensures AlignUp(value, al) < TWO32
    ensures AlignUp(value, al) >= value <==> value + al - 1 < TWO32
    ensures value + al - 1 < TWO32 ==> AlignUp(value, al) % al == 0 && AlignUp(value, al) < value + al
  {
    TwoToThe32IsPow2();
    AlignUpExactAt(value, al, TWO32);
  }

  lemma AlignUpExactAt(value: nat, al: nat, w: nat)
    requires 0 < value < TWO64 && 0 < al < w == TWO32 && IsPow2(al) && IsPow2(w)
    ensures AlignUp(value, al) < w
    ensures AlignUp(value, al) >= value <==> value + al - 1 < w
    ensures value + al - 1 < w ==> AlignUp(value, al) % al == 0 && AlignUp(value, al) < value + al
  {
    hide BitAnd, IsPow2, AlignUp;
    AlignUpValue(value, al, w);
    assert value + al - 1 < TWO64 ==> Wrap64(value + al - 1) == value + al - 1;
    if value + al - 1 < w {
      RoundingInside(value, al, w);
    } else if value < w {
      RoundingOutside(value, al, w);
    }
  }

  /** A request of exactly 2^32 rounds to zero. */
  lemma AlignUpOfModulus(al: nat, w: nat)
    requires 0 < al < w == TWO32 && IsPow2(al) && IsPow2(w)
    ensures AlignUp(w, al) == 0
  {
    hide BitAnd, IsPow2, AlignUp;
    AlignUpValue(w, al, w);
    Pow2Divides(w, al);
    assert Wrap64(w + al - 1) == w + al - 1;
    DivModUnique(w + al - 1, w, 1, al - 1);
    OneMultipleOff(w + al - 1, w, al);
  }
}
