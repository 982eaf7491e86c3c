/** Helpers shared by both engines: power-of-two rounding for the prime mask,
    the nucleotide lookups, and the parameter guard chain run by every
    constructor. */
module Util {
  import opened Bits
  import opened Errors
  import Constants

  /** The exponent of the smallest power of two that is at least `x`. */
  function CeilLog2(x: nat): (m: nat)
    ensures Pow2(m) >= x
    ensures m > 0 ==> Pow2(m - 1) < x
    decreases x
  {
    if x <= 1 then 0 else 1 + CeilLog2((x + 1) / 2)
  }

  /** `roundup64(x)`, which is `x.next_power_of_two()`. Above `2^63` the
      next power of two does not fit a `u64` and Rust panics, hence the
      precondition. */
  function Roundup64(x: u64): (r: u64)
    requires x <= TWO_63
    ensures r >= x && r == Pow2(CeilLog2(x))
    ensures x > 1 ==> r / 2 < x
  {
    Pow2Values();
    Pow2(CeilLog2(x))
  }

  /** `roundup64` returns the least power of two at or above `x`. */
  lemma Roundup64Least(x: u64, m: nat)
    requires x <= TWO_63 && Pow2(m) >= x
    ensures Roundup64(x) <= Pow2(m)
  {
    var c := CeilLog2(x);
    if m < c {
      Pow2Monotone(m, c - 1);
    } else {
      Pow2Monotone(c, m);
    }
  }

  lemma Roundup64Examples()
    ensures Roundup64(5) == 8 && Roundup64(8) == 8
    ensures Roundup64(300) == 512
  {
    assert CeilLog2(5) == 3;
    assert CeilLog2(8) == 3;
    assert CeilLog2(300) == 9;
  }

  /** What `set_prime(q)` stores for an accepted `q`: `roundup64(q) - 1`,
      a mask `2^m - 1` with `8 <= m <= 63` that is at least `q - 1`. */
  lemma PrimeMaskFromRequest(q: u64)
    requires 256 <= q <= TWO_63
    ensures IsLowMask(Roundup64(q) - 1, CeilLog2(q))
    ensures 8 <= CeilLog2(q) <= 63
    ensures Roundup64(q) - 1 >= q - 1
  {
    var m := CeilLog2(q);
    Pow2Values();
    if m < 8 {
      Pow2Monotone(m, 7);
    }
    if m > 63 {
      Pow2Monotone(63, m - 1);
    }
  }

  /** `complement(b)`: the complementary base of an ASCII nucleotide. */
  function Complement(b: u8): (r: u8)
    ensures r in {Constants.Ascii('A'), Constants.Ascii('C'), Constants.Ascii('G'),
                  Constants.Ascii('T'), Constants.Ascii('N')}
    ensures r == Constants.Ascii('N') <==> !Constants.IsNucleotide(b)
  {
    Constants.ComplBases(b)
  }

  /** `nt4(b)`: the 2-bit code of a nucleotide, 4 for anything else. */
  function Nt4(b: u8): (r: u8)
    ensures r <= 4
    ensures r < 4 <==> Constants.IsNucleotide(b)
  {
    Constants.SeqNt4Table(b)
  }

  /** The conditions `validate_params!` accepts. */
  ghost predicate ParamsOk(s: seq<u8>, n: u8, l: nat, wMin: nat, wMax: nat)
  {
    && |s| > 0
    && (n == 2 || n == 3)
    && 1 <= l <= 64
    && 1 <= wMin <= wMax
    && |s| >= (n - 1) * (wMax + 1)
  }

  /** `validate_params!(seq, n, l, w_min, w_max)`: a chain of guards, the
      first failing one deciding the error. Only emptiness of the sequence
      is checked, not that its bytes are ASCII. */
  function ValidateParams(s: seq<u8>, n: u8, l: nat, wMin: nat, wMax: nat): (r: Result<()>)
    ensures r.Ok? <==> ParamsOk(s, n, l, wMin, wMax)
    ensures |s| == 0 ==> r == Err(InvalidSequence)
    ensures |s| > 0 && n != 2 && n != 3 ==> r == Err(OrderNotSupported)
    ensures |s| > 0 && (n == 2 || n == 3) && !(1 <= l <= 64) ==> r == Err(StrobeLengthTooSmall)
    ensures |s| > 0 && (n == 2 || n == 3) && 1 <= l <= 64 && !(1 <= wMin <= wMax)
            ==> r == Err(InvalidWindowOffsets)
    ensures (|s| > 0 && (n == 2 || n == 3) && 1 <= l <= 64 && 1 <= wMin <= wMax
             && |s| < (n - 1) * (wMax + 1)) ==> r == Err(SequenceTooShort)
    ensures r.Err? ==> r.error in {InvalidSequence, OrderNotSupported, StrobeLengthTooSmall,
                                   InvalidWindowOffsets, SequenceTooShort}
  {
    if |s| == 0 then Err(InvalidSequence)
    else if n != 2 && n != 3 then Err(OrderNotSupported)
    else if !(1 <= l <= 64) then Err(StrobeLengthTooSmall)
    else if wMin == 0 || wMax == 0 || wMin > wMax then Err(InvalidWindowOffsets)
    else if |s| < (n - 1) * (wMax + 1) then Err(SequenceTooShort)
    else Ok(())
  }

  /** Bytes outside ASCII pass the guard chain. */
  lemma NonAsciiAccepted()
    ensures ValidateParams([0xC3, 0xA9, 0xFF, 0x80, 0x80, 0x80], 2, 3, 1, 5).Ok?
  {
  }

  /** The length bound is exact: `(n-1)*(w_max+1)` bytes pass, one fewer fails. */
  lemma LengthBoundExact(s: seq<u8>, n: u8, l: nat, wMin: nat, wMax: nat)
    requires (n == 2 || n == 3) && 1 <= l <= 64 && 1 <= wMin <= wMax
    requires |s| == (n - 1) * (wMax + 1)
    ensures ValidateParams(s, n, l, wMin, wMax).Ok?
    ensures ValidateParams(s[1..], n, l, wMin, wMax) == Err(SequenceTooShort)
  {
  }
}
