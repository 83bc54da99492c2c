/**
 The bit-smearing `pow2_roundup` (kernel/lib/memutils.hpp) on 64-bit unsigned numbers, against the
 least power of two.
 */
module Pow2 {

  // ---------------------------------------------------------------------------------------
  // Bits

  /** Bit `i` of `x`. */
  predicate Bit(x: nat, i: nat) {
    if i == 0 then x % 2 == 1 else Bit(x / 2, i - 1)
  }

  /** `x >> k`. */
  function Shift(x: nat, k: nat): nat {
    if k == 0 then x else Shift(x / 2, k - 1)
  }

  /** `a | b`. */
  function Or(a: nat, b: nat): nat
    decreases a + b
  {
    if a == 0 && b == 0 then 0
    else (if a % 2 == 1 || b % 2 == 1 then 1 else 0) + 2 * Or(a / 2, b / 2)
  }

  function Pow(k: nat): (r: nat)
    ensures r > 0
  {
    if k == 0 then 1 else 2 * Pow(k - 1)
  }

  lemma {:induction false} ShiftBit(x: nat, k: nat, i: nat)
    ensures Bit(Shift(x, k), i) <==> Bit(x, i + k)
  {
    if k > 0 {
      ShiftBit(x / 2, k - 1, i);
    }
  }

  lemma {:induction false} ZeroBit(i: nat)
    ensures !Bit(0, i)
  {
    if i > 0 {
      ZeroBit(i - 1);
    }
  }

  lemma {:induction false} OrBit(a: nat, b: nat, i: nat)
    ensures Bit(Or(a, b), i) <==> Bit(a, i) || Bit(b, i)
    decreases i
  {
    if a == 0 && b == 0 {
      ZeroBit(i);
    } else {
      assert Or(a, b) / 2 == Or(a / 2, b / 2);
      if i > 0 {
        OrBit(a / 2, b / 2, i - 1);
      }
    }
  }

  /** A number below a power of two has no bit from there on. */
  lemma {:induction false} NoHighBit(x: nat, t: nat, i: nat)
    requires x < Pow(t) && i >= t
    ensures !Bit(x, i)
    decreases i
  {
    if t == 0 {
      ZeroBit(i);
    } else {
      NoHighBit(x / 2, t - 1, i - 1);
    }
  }

  lemma {:induction false} PowMonotone(a: nat, b: nat)
    requires a <= b
    ensures Pow(a) <= Pow(b)
  {
    if a < b {
      PowMonotone(a, b - 1);
    }
  }

  /** A number with no bit from `t` on is below that power. */
  lemma {:induction false} HighBits(x: nat, t: nat)
    requires forall i: nat :: i >= t ==> !Bit(x, i)
    ensures x < Pow(t)
    decreases t, x
  {
    if t == 0 {
      if x > 0 {
        forall i: nat ensures !Bit(x / 2, i) {
          assert !Bit(x, i + 1);
        }
        assert !Bit(x, 0);
        HighBits(x / 2, 0);
      }
    } else {
      forall i: nat | i >= t - 1 ensures !Bit(x / 2, i) {
        assert !Bit(x, i + 1);
      }
      HighBits(x / 2, t - 1);
    }
  }

  /** With all `t` low bits set a number is at least one less than the power. */
  lemma {:induction false} LowBits(x: nat, t: nat)
    requires forall i: nat :: i < t ==> Bit(x, i)
    ensures x >= Pow(t) - 1
  {
    if t > 0 {
      forall i: nat | i < t - 1 ensures Bit(x / 2, i) {
        assert Bit(x, i + 1);
      }
      assert Bit(x, 0);
      LowBits(x / 2, t - 1);
    }
  }

  lemma {:induction false} AllOnes(t: nat, i: nat)
    requires i < t
    ensures Bit(Pow(t) - 1, i)
  {
    var x := Pow(t) - 1;
    assert x == 2 * (Pow(t - 1) - 1) + 1;
    assert x / 2 == Pow(t - 1) - 1 && x % 2 == 1;
    if i > 0 {
      AllOnes(t - 1, i - 1);
    }
  }

  // ---------------------------------------------------------------------------------------
  // Smearing

  function Spread(x: nat, k: nat): nat {
    Or(x, Shift(x, k))
  }

  function Smear(x: nat): nat {
    Spread(Spread(Spread(Spread(Spread(x, 1), 2), 4), 8), 16)
  }

  /** Some bit among the `k` bits of `x` from `i` up is set. */
  predicate Near(x: nat, k: nat, i: nat) {
    exists j: nat :: i <= j < i + k && Bit(x, j)
  }

  /** Bits of `y` are set where `x` has a bit at most `k - 1` places up. */
  ghost predicate Smeared(x: nat, y: nat, k: nat) {
    forall i: nat :: Bit(y, i) <==> Near(x, k, i)
  }

  /** One line of `pow2_roundup` doubles the reach. */
  lemma SpreadDoubles(x: nat, y: nat, k: nat)
    requires Smeared(x, y, k)
    ensures Smeared(x, Spread(y, k), 2 * k)
  {
    forall i: nat
      ensures Bit(Spread(y, k), i) <==> Near(x, 2 * k, i)
    {
      OrBit(y, Shift(y, k), i);
      ShiftBit(y, k, i);
      assert Bit(y, i) <==> Near(x, k, i);
      assert Bit(y, i + k) <==> Near(x, k, i + k);
      NearSplit(x, k, i);
    }
  }

  lemma NearSplit(x: nat, k: nat, i: nat)
    ensures Near(x, 2 * k, i) <==> Near(x, k, i) || Near(x, k, i + k)
  {
    if Near(x, 2 * k, i) {
      var j: nat :| i <= j < i + 2 * k && Bit(x, j);
      assert if j < i + k then Near(x, k, i) else Near(x, k, i + k);
    }
  }

  /** The five lines together: a bit of the result is set just when one of the 32 bits from it up was. */
  lemma SmearReaches(x: nat)
    ensures Smeared(x, Smear(x), 32)
  {
    forall i: nat
      ensures Bit(x, i) <==> Near(x, 1, i)
    {
      if Near(x, 1, i) {
        var j: nat :| i <= j < i + 1 && Bit(x, j);
        assert j == i;
      }
    }
    var a := Spread(x, 1);
    SpreadDoubles(x, x, 1);
    var b := Spread(a, 2);
    SpreadDoubles(x, a, 2);
    var c := Spread(b, 4);
    SpreadDoubles(x, b, 4);
    SpreadDoubles(x, c, 8);
    SpreadDoubles(x, Spread(c, 8), 16);
  }

  // ---------------------------------------------------------------------------------------
  // Rounding

  /** The exponent of the least power of two that is not below `a`. */
  function Exponent(a: nat): (t: nat)
    requires a > 0
    ensures a <= Pow(t) && (t > 0 ==> Pow(t - 1) < a)
  {
    if a == 1 then 0 else 1 + Exponent((a + 1) / 2)
  }

  /** `r` is the least power of two that is not below `a`. */
  ghost predicate LeastPower(a: nat, r: nat) {
    a <= r && (exists k: nat :: r == Pow(k)) && forall k: nat :: a <= Pow(k) ==> r <= Pow(k)
  }

  lemma ExponentIsLeast(a: nat, r: nat)
    requires a > 0
    ensures LeastPower(a, r) <==> r == Pow(Exponent(a))
  {
    var t := Exponent(a);
    forall k: nat | a <= Pow(k)
      ensures Pow(t) <= Pow(k)
    {
      if k < t {
        PowMonotone(k, t - 1);
      } else {
        PowMonotone(t, k);
      }
    }
    if LeastPower(a, r) {
      var k: nat :| r == Pow(k);
    }
  }

  /** `a - 1` has no 32 zero bits in a row below its highest bit. */
  predicate NoGap(a: nat)
    requires a > 0
  {
    Filled(a - 1, Exponent(a))
  }

  predicate Filled(x: nat, t: nat) {
    forall i: nat :: i < t ==> Near(x, 32, i)
  }

  /** `Smear` never goes past the highest bit, never loses a bit, and fills every bit when there is no gap. */
  lemma SmearBounds(x: nat, t: nat)
    requires x < Pow(t)
    ensures x <= Smear(x) < Pow(t)
    ensures Smear(x) == Pow(t) - 1 <==> Filled(x, t)
  {
    hide Pow, Smear, Bit;
    var y := Smear(x);
    SmearReaches(x);
    forall i: nat | i >= t
      ensures !Bit(y, i)
    {
      forall j: nat | i <= j < i + 32 ensures !Bit(x, j) {
        NoHighBit(x, t, j);
      }
    }
    HighBits(y, t);
    if Filled(x, t) {
      LowBits(y, t);
    }
    if y == Pow(t) - 1 {
      forall i: nat | i < t ensures Near(x, 32, i) {
        AllOnes(t, i);
      }
    }
    forall i: nat | Bit(x, i)
      ensures Bit(y, i)
    {
      assert Near(x, 32, i);
    }
    MoreBits(x, y);
  }

  lemma {:induction false} MoreBits(x: nat, y: nat)
    requires forall i: nat :: Bit(x, i) ==> Bit(y, i)
    ensures x <= y
    decreases x
  {
    if x > 0 {
      forall i: nat | Bit(x / 2, i) ensures Bit(y / 2, i) {
        assert Bit(x, i + 1);
      }
      MoreBits(x / 2, y / 2);
      assert Bit(x, 0) ==> Bit(y, 0);
    }
  }

  /** The highest bit of `a - 1`. */
  lemma {:induction false} TopBit(x: nat, t: nat)
    requires t > 0 && Pow(t - 1) <= x < Pow(t)
    ensures Bit(x, t - 1)
  {
    if t > 1 {
      TopBit(x / 2, t - 1);
    }
  }

  /** Up to 2^32 there is no room for a gap. */
  lemma SmallHasNoGap(a: nat)
    requires 0 < a && Exponent(a) <= 32
    ensures NoGap(a)
  {
    var x, t := a - 1, Exponent(a);
    if t > 0 {
      TopBit(x, t);
      forall i: nat | i < t
        ensures Near(x, 32, i)
      {
        assert i <= t - 1 < i + 32 && Bit(x, t - 1);
      }
    }
  }

  /** `pow2_roundup`, with the 64-bit wrap-around of its first and last line. */
  function Roundup(a: nat): nat
    requires a < 0x1_0000_0000_0000_0000
  {
    (Smear(if a == 0 then 0xffff_ffff_ffff_ffff else a - 1) + 1) % 0x1_0000_0000_0000_0000
  }

  lemma {:induction false} PowAdd(a: nat, b: nat)
    ensures Pow(a + b) == Pow(a) * Pow(b)
  {
    if a > 0 {
      PowAdd(a - 1, b);
      assert Pow(a) * Pow(b) == 2 * (Pow(a - 1) * Pow(b));
    } else {
      assert Pow(0) * Pow(b) == Pow(b);
    }
  }

  lemma Powers()
    ensures Pow(32) == 0x1_0000_0000 && Pow(63) == 0x8000_0000_0000_0000 && Pow(64) == 0x1_0000_0000_0000_0000
  {
    assert Pow(8) == 0x100;
    PowAdd(8, 8);
    PowAdd(16, 16);
    PowAdd(32, 31);
    PowAdd(16, 15);
    PowAdd(8, 7);
  }

  lemma ExponentBound(a: nat, t: nat)
    requires a > 0
    ensures Exponent(a) <= t <==> a <= Pow(t)
  {
    if Exponent(a) <= t {
      PowMonotone(Exponent(a), t);
    } else {
      PowMonotone(t, Exponent(a) - 1);
    }
  }

  /**
   For a size that has a 64-bit power of two above it, `pow2_roundup` gives the least one just
   when `a - 1` has no gap of 32 zero bits; without a power of two to give, it gives 0 just then.
   */
  lemma RoundupIsLeastPower(a: nat)
    requires 0 < a < 0x1_0000_0000_0000_0000
    ensures a <= 0x8000_0000_0000_0000 ==> (LeastPower(a, Roundup(a)) <==> NoGap(a))
    ensures a <= 0x8000_0000_0000_0000 ==> a <= Roundup(a)
    ensures a > 0x8000_0000_0000_0000 ==> (Roundup(a) == 0 <==> NoGap(a)) && (Roundup(a) == 0 || a <= Roundup(a))
  {
    hide Pow, Exponent, Smear, Filled, LeastPower;
    Powers();
    ExponentBound(a, 63);
    ExponentBound(a, 64);
    SmearBounds(a - 1, Exponent(a));
    PowMonotone(Exponent(a), if a <= Pow(63) then 63 else 64);
    ExponentIsLeast(a, Roundup(a));
  }

  /** So for sizes from 1 to 2^32 it is the least power of two. */
  lemma RoundupExact(a: nat)
    requires 0 < a <= 0x1_0000_0000
    ensures LeastPower(a, Roundup(a)) && Roundup(a) < 2 * a
  {
    Powers();
    ExponentBound(a, 32);
    SmallHasNoGap(a);
    RoundupIsLeastPower(a);
    ExponentIsLeast(a, Roundup(a));
  }

  /** The first size for which it is not. */
  lemma RoundupFailsAbove()
    ensures !LeastPower(0x1_0000_0001, Roundup(0x1_0000_0001))
  {
    var a := 0x1_0000_0001;
    Powers();
    ExponentBound(a, 32);
    if NoGap(a) {
      assert Near(a - 1, 32, 0);
      var j: nat :| 0 <= j < 32 && Bit(a - 1, j);
      PowerBit(32, j);
    }
    RoundupIsLeastPower(a);
  }

  lemma {:induction false} PowerBit(t: nat, j: nat)
    requires j < t
    ensures !Bit(Pow(t), j)
  {
    if j > 0 {
      PowerBit(t - 1, j - 1);
    }
  }

  /** `pow2_roundup` as the source runs it. */
  method RoundupInPlace(size: nat) returns (a: nat)
    requires size < 0x1_0000_0000_0000_0000
    ensures a == Roundup(size)
  {
    a := if size == 0 then 0xffff_ffff_ffff_ffff else size - 1;
    a := Or(a, Shift(a, 1));
    a := Or(a, Shift(a, 2));
    a := Or(a, Shift(a, 4));
    a := Or(a, Shift(a, 8));
    a := Or(a, Shift(a, 16));
    a := (a + 1) % 0x1_0000_0000_0000_0000;
  }
}
