/** Rust's fixed-width unsigned integers and the few bit operations the
    strobemer code applies to them, written over mathematical integers. */
module Bits {

  const TWO_64: int := 0x1_0000_0000_0000_0000

  /** `u8`: one byte of the input sequence. */
  type u8 = x: int | 0 <= x < 0x100

  /** `u64`: hash values, combined fingerprints and the prime mask. */
  type u64 = x: int | 0 <= x < 0x1_0000_0000_0000_0000

  /** `2^63`, the largest power of two a `u64` holds. */
  const TWO_63: int := 0x8000_0000_0000_0000

  /** `u64::MAX`, the sentinel of an empty or not-yet-filled window. */
  const U64_MAX: u64 := 0xFFFF_FFFF_FFFF_FFFF

  function Pow2(m: nat): (r: nat)
    ensures r >= 1
  {
    if m == 0 then 1 else 2 * Pow2(m - 1)
  }

  lemma {:induction false} Pow2Monotone(a: nat, b: nat)
    requires a <= b
    ensures Pow2(a) <= Pow2(b)
    decreases b
  {
    if a < b {
      Pow2Monotone(a, b - 1);
    }
  }

  lemma {:induction false} Pow2Add(a: nat, b: nat)
    ensures Pow2(a + b) == Pow2(a) * Pow2(b)
    decreases a
  {
    if a > 0 {
      Pow2Add(a - 1, b);
    }
  }

  lemma Pow2Small()
    ensures Pow2(4) == 16 && Pow2(7) == 128 && Pow2(8) == 256
  {
  }

  lemma Pow2Mid()
    ensures Pow2(16) == 0x1_0000 && Pow2(20) == 0x10_0000 && Pow2(32) == 0x1_0000_0000
  {
    Pow2Small();
    Pow2Add(8, 8);
    Pow2Add(16, 4);
    Pow2Add(16, 16);
  }

  lemma Pow2Values()
    ensures Pow2(8) == 256 && Pow2(20) == 0x10_0000
    ensures Pow2(63) == TWO_63 && Pow2(64) == TWO_64
  {
    Pow2Small();
    Pow2Mid();
    Pow2Add(32, 31);
    Pow2Add(16, 15);
    Pow2Add(8, 7);
    assert Pow2(15) == 0x8000;
    assert Pow2(31) == 0x8000_0000;
    Pow2Add(32, 32);
  }

  /** `a.wrapping_add(b)` on `u64`. */
  function WrappingAdd(a: u64, b: u64): (r: u64)
    ensures r == (a + b) % TWO_64
  {
    if a + b < TWO_64 then a + b else a + b - TWO_64
  }

  /** `a.saturating_sub(b)` on `usize`. */
  function SaturatingSub(a: nat, b: nat): nat
  {
    if a >= b then a - b else 0
  }

  /** Bitwise AND of two naturals, one bit at a time from the least
      significant end. */
  function And(a: nat, b: nat): (r: nat)
    ensures r <= a && r <= b
    decreases a
  {
    if a == 0 || b == 0 then 0
    else 2 * And(a / 2, b / 2) + (if a % 2 == 1 && b % 2 == 1 then 1 else 0)
  }

  /** A mask of the form `2^m - 1`: every `prime` the engines hold. */
  ghost predicate IsLowMask(mask: nat, m: nat)
  {
    mask + 1 == Pow2(m)
  }

  lemma ModUnique(x: int, d: int, t: int, s: int)
    requires d > 0 && x == d * t + s && 0 <= s < d
    ensures x % d == s && x / d == t
  {
    var t', s' := x / d, x % d;
    assert d * (t - t') == s' - s;
    if t' < t {
      MulAtLeast(d, t - t');
    } else if t' > t {
      MulAtLeast(d, t' - t);
    }
  }

  lemma MulAtLeast(d: int, e: int)
    requires d > 0 && e >= 1
    ensures d * e >= d
  {
    assert d * e == d * (e - 1) + d;
  }

  lemma ModHalving(x: nat, k: nat, d: nat)
    requires k >= 1 && d == 2 * k
    ensures x % d == 2 * ((x / 2) % k) + x % 2
  {
    var q, r := x / 2, x % 2;
    var t, u := q / k, q % k;
    assert q == k * t + u;
    assert x == (2 * k) * t + (2 * u + r) by {
      assert x == 2 * q + r;
      assert 2 * q == 2 * (k * t) + 2 * u;
      assert 2 * (k * t) == (2 * k) * t;
    }
    ModUnique(x, 2 * k, t, 2 * u + r);
  }

  /** ANDing with `2^m - 1` keeps the low `m` bits: `x & mask == x % (mask + 1)`.
      This is what lets the engines' masked scores be read as remainders. */
  lemma {:induction false} AndLowMask(x: nat, m: nat)
    ensures And(x, Pow2(m) - 1) == x % Pow2(m)
  {
    if m == 0 {
      ModUnique(x, 1, x, 0);
    } else if x == 0 {
      ModUnique(0, Pow2(m), 0, 0);
    } else {
      AndLowMask(x / 2, m - 1);
      AndLowMaskStep(x, Pow2(m - 1), Pow2(m));
    }
  }

  /** The inductive step of `AndLowMask`, from the mask `k - 1` on `x / 2`
      to the mask `2k - 1` on `x`. */
  lemma AndLowMaskStep(x: nat, k: nat, d: nat)
    requires x > 0 && k >= 1 && d == 2 * k
    requires And(x / 2, k - 1) == (x / 2) % k
    ensures And(x, d - 1) == x % d
  {
    calc {
      And(x, d - 1);
      == { AndOddStep(x, k, d - 1); }
      2 * And(x / 2, k - 1) + x % 2;
      2 * ((x / 2) % k) + x % 2;
      == { ModHalving(x, k, d); }
      x % d;
    }
  }

  /** One step of `And` against an odd mask `2k - 1`: the low bit of `x`
      survives and the rest is ANDed with `k - 1`. */
  lemma AndOddStep(x: nat, k: nat, mask: nat)
    requires x > 0 && k >= 1 && mask == 2 * k - 1
    ensures And(x, mask) == 2 * And(x / 2, k - 1) + x % 2
  {
    ModUnique(mask, 2, k - 1, 1);
  }

  /** The score both engines minimise: `(base wrapping_add h) & mask`. */
  function MaskedScore(base: u64, h: u64, mask: u64): (r: u64)
    ensures r <= mask
  {
    And(WrappingAdd(base, h), mask)
  }

  lemma MaskedScoreIsRemainder(base: u64, h: u64, mask: u64, m: nat)
    requires IsLowMask(mask, m)
    ensures MaskedScore(base, h, mask) == (base + h) % TWO_64 % (mask + 1)
  {
    AndLowMask(WrappingAdd(base, h), m);
  }
}
