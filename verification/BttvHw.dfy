/** Register-level arithmetic and the interrupt loop of the bttv driver (bttv-driver.c). */
module BttvHw {
  import opened Arith

  // ---------------------------------------------------------------- PLL

  function U32(x: nat): (r: nat)
    ensures x < 0x1_0000_0000 ==> r == x
    ensures x >= 0x1_0000_0000 ==> r + 0x1_0000_0000 <= x
  {
    x % 0x1_0000_0000
  }

  function U8(x: nat): (r: nat)
    ensures r < 0x100 && (x < 0x100 ==> r == x)
  {
    x % 0x100
  }

  lemma Digit(r: nat, d: nat)
    requires r < d
    ensures r * 256 / d < 256
  {
  }

  lemma Collect(n: nat, d: nat, fi: nat, a: nat, fh: nat, b: nat, fl: nat, c: nat)
    requires n == fi * d + a && a * 256 == fh * d + b && b * 256 == fl * d + c
    ensures n * 65536 == (fi * 65536 + fh * 256 + fl) * d + c
  {
    assert n * 65536 == (fi * d) * 65536 + (fh * d) * 256 + fl * d + c;
    assert (fi * d) * 65536 == (fi * 65536) * d && (fh * d) * 256 == (fh * 256) * d;
  }

  /** Two digits of a long division in base 256 after the integer part. */
  lemma LongDivision(n: nat, d: nat)
    requires d > 0
    ensures var a := Rem(n, d);
            var b := Rem(a * 256, d);
            && n * 65536 / d == Quot(n, d) * 65536 + Quot(a * 256, d) * 256 + Quot(b * 256, d)
            && Quot(a * 256, d) < 256 && Quot(b * 256, d) < 256
  {
    var a := n % d;
    var b := a * 256 % d;
    var fi, fh, fl, c := n / d, a * 256 / d, b * 256 / d, b * 256 % d;
    Division(n, d);
    Division(a * 256, d);
    Division(b * 256, d);
    Digit(a, d);
    Digit(b, d);
    Collect(n, d, fi, a, fh, b, fl, c);
    QuotientIs(n * 65536, d, fi * 65536 + fh * 256 + fl, c);
  }

  /** The remainders that set_pll_freq carries on with, and the three bytes it ends up with. */
  function Carry(x: nat, d: nat): nat
    requires d > 0
  {
    U32(Rem(x, d) * 256)
  }

  function PllBytes(n0: nat, d: nat): (r: (nat, nat, nat))
    requires d > 0
    ensures r.0 < 0x100 && r.1 < 0x100 && r.2 < 0x100
  {
    var n := U32(n0);
    (U8(Quot(n, d)), U8(Quot(Carry(n, d), d)), U8(Quot(Carry(Carry(n, d), d), d)))
  }

  /** No intermediate value leaves its register. */
  predicate Fits(n: nat, d: nat)
    requires d > 0
  {
    && n < 0x1_0000_0000 && Quot(n, d) < 0x100
    && Rem(n, d) < 0x100_0000 && Rem(Rem(n, d) * 256, d) < 0x100_0000
  }

  lemma QuotDrops(x: nat, y: nat, d: nat)
    requires d > 0 && y + d <= x
    ensures Quot(y, d) < Quot(x, d)
  {
    hide Quot, Rem;
    Division(x, d);
    Division(y, d);
    var k := Quot(y, d) - Quot(x, d);
    assert k * d == Quot(y, d) * d - Quot(x, d) * d;
    Stretch(k, d);
  }

  /** The bytes are the quotient of n and d, cut off after 16 binary places, exactly when everything
      fits; an overflow always shows. */
  lemma PllExactly(n: nat, d: nat)
    requires 0 < d < 0x4000_0000
    ensures var (fi, fh, fl) := PllBytes(n, d);
            fi * 65536 + fh * 256 + fl == n * 65536 / d <==> Fits(n, d)
  {
    hide U32, U8, Quot, Rem;
    LongDivision(n, d);
    var a := Rem(n, d);
    var b := Rem(a * 256, d);
    if n >= 0x1_0000_0000 {
      QuotDrops(n, U32(n), d);
    } else if a >= 0x100_0000 {
      QuotDrops(a * 256, U32(a * 256), d);
    } else if b >= 0x100_0000 {
      QuotDrops(b * 256, U32(b * 256), d);
    }
  }

  /** set_pll_freq in 32-bit arithmetic with 8-bit results. */
  method SetPllFreq(fin: nat, fout: nat) returns (fl: nat, fh: nat, fi: nat)
    requires 4 <= fin < 0x1_0000_0000 && fout < 0x1_0000_0000
    ensures fl < 0x100 && fh < 0x100 && fi < 0x100
    ensures fi * 65536 + fh * 256 + fl == fout / 4 * 12 * 65536 / (fin / 4) <==> Fits(fout / 4 * 12, fin / 4)
    ensures fin / 4 <= 0x100_0000 && fout / 4 * 12 < 0x1_0000_0000 && Quot(fout / 4 * 12, fin / 4) < 0x100 ==>
              Fits(fout / 4 * 12, fin / 4)
  {
    hide U32, U8, Rem, Quot;
    var d := fin / 4;
    PllExactly(fout / 4 * 12, d);
    var n := U32(fout / 4 * 12);
    fi := U8(Quot(n, d));
    n := U32(Rem(n, d) * 256);
    fh := U8(Quot(n, d));
    n := U32(Rem(n, d) * 256);
    fl := U8(Quot(n, d));
  }

  // ---------------------------------------------------------------- interrupt loop

  /** Bit numbers set in an interrupt register. */
  type Bits = set<nat>

  const GPINT: nat := 9

  /** The interrupt mask after the count-th pass over the loop that saw the active bits astat. */
  function NextMask(mask: Bits, astat: Bits, count: nat): Bits {
    if count <= 4 then mask
    else if count > 8 || GPINT !in astat then {}
    else mask - {GPINT}
  }

  /** The mask before pass n, if the device shows the given status values. */
  function MaskBefore(stat: nat -> Bits, mask: Bits, n: nat): Bits {
    if n == 0 then mask
    else
      var m := MaskBefore(stat, mask, n - 1);
      NextMask(m, stat(n - 1) * m, n)
  }

  predicate Quiet(stat: nat -> Bits, mask: Bits, n: nat) {
    stat(n) * MaskBefore(stat, mask, n) == {}
  }

  /** Whatever the device answers, some pass among the first seven finds nothing to do. */
  lemma QuietWithinSix(stat: nat -> Bits, mask: Bits)
    ensures exists n :: 0 <= n <= 6 && Quiet(stat, mask, n)
  {
    var m4, m5, m6 := MaskBefore(stat, mask, 4), MaskBefore(stat, mask, 5), MaskBefore(stat, mask, 6);
    assert m5 == NextMask(m4, stat(4) * m4, 5);
    assert GPINT !in stat(5) * m5;
    assert m6 == {};
    assert Quiet(stat, mask, 6);
  }

  lemma {:induction false} MaskUntouched(stat: nat -> Bits, mask: Bits, n: nat)
    requires n <= 4
    ensures MaskBefore(stat, mask, n) == mask
  {
    if n > 0 {
      MaskUntouched(stat, mask, n - 1);
    }
  }

  /** Six passes do happen: a board with a stuck GPIO line and a second active interrupt. */
  lemma SixIsReached()
    ensures var stat := (n: nat) => {1, GPINT};
            forall n :: 0 <= n < 6 ==> !Quiet(stat, {1, GPINT}, n)
  {
    var stat := (n: nat) => {1, GPINT};
    var mask := {1, GPINT};
    forall n | 0 <= n < 6
      ensures !Quiet(stat, mask, n)
    {
      MaskUntouched(stat, mask, if n < 5 then n else 4);
      assert n == 5 ==> 1 in MaskBefore(stat, mask, n);
      assert 1 in stat(n) * MaskBefore(stat, mask, n);
    }
  }

  /** The active bits of pass n if nothing was masked yet. */
  function Active(stat: nat -> Bits, mask: Bits, n: nat): Bits {
    stat(n) * mask
  }

  /** A sixth pass comes exactly if the first five are all active, the fifth with GPINT, and something
      else is active in the sixth. Without GPINT the fifth pass is the last. */
  lemma SixthPassExactly(stat: nat -> Bits, mask: Bits)
    ensures (forall n :: 0 <= n <= 5 ==> !Quiet(stat, mask, n)) <==>
            && (forall n :: 0 <= n <= 4 ==> Active(stat, mask, n) != {})
            && GPINT in Active(stat, mask, 4) && Active(stat, mask, 5) - {GPINT} != {}
  {
    forall n | 0 <= n <= 4
      ensures Quiet(stat, mask, n) <==> Active(stat, mask, n) == {}
    {
      MaskUntouched(stat, mask, n);
    }
    FifthPassMasks(stat, mask);
    hide Quiet, Active;
    if forall n :: 0 <= n <= 5 ==> !Quiet(stat, mask, n) {
      assert !Quiet(stat, mask, 5) && !Quiet(stat, mask, 4);
      assert forall n :: 0 <= n <= 4 ==> !Quiet(stat, mask, n);
    }
  }

  lemma FifthPassMasks(stat: nat -> Bits, mask: Bits)
    ensures Quiet(stat, mask, 5) <==>
            !(GPINT in Active(stat, mask, 4) && Active(stat, mask, 5) - {GPINT} != {})
  {
    MaskUntouched(stat, mask, 4);
    var m5 := MaskBefore(stat, mask, 5);
    assert m5 == NextMask(mask, stat(4) * mask, 5);
    if GPINT in stat(4) * mask {
      assert stat(5) * m5 == stat(5) * mask - {GPINT};
    } else {
      assert m5 == {};
    }
  }

  /** bttv_irq: stat(n) is what the n-th read of the status register returns. The loop ends by itself
      at the first quiet pass, after at most six passes. */
  method Irq(stat: nat -> Bits, mask0: Bits, customHandled: bool) returns (handled: bool, passes: nat, mask: Bits)
    ensures passes <= 6
    ensures Quiet(stat, mask0, passes) && forall n :: 0 <= n < passes ==> !Quiet(stat, mask0, n)
    ensures handled == (customHandled || passes > 0)
    ensures mask == MaskBefore(stat, mask0, passes)
    ensures passes <= 4 ==> mask == mask0
  {
    handled, mask, passes := customHandled, mask0, 0;
    while true
      invariant passes <= 6
      invariant passes == 5 ==> GPINT !in mask
      invariant passes == 6 ==> mask == {}
      invariant mask == MaskBefore(stat, mask0, passes)
      invariant forall n :: 0 <= n < passes ==> !Quiet(stat, mask0, n)
      invariant handled == (customHandled || passes > 0)
      invariant passes <= 4 ==> mask == mask0
      decreases 6 - passes
    {
      var astat := stat(passes) * mask;
      if astat == {} {
        break;
      }
      assert !Quiet(stat, mask0, passes);
      handled := true;
      passes := passes + 1;
      if passes > 4 {
        if passes > 8 || GPINT !in astat {
          mask := {};
        } else {
          mask := mask - {GPINT};
        }
      }
    }
  }
}
