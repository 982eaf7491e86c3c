/** The RandStrobes iterator: every later strobe is the position of a window
    minimising `(base wrapping_add hash) & prime`, where `base` is the
    combined hash so far. No tables are precomputed; each window is scanned
    by `choose_min`, keeping the earliest minimum. */
module RandStrobesEngine {
  import opened Bits
  import opened Errors
  import opened Windows
  import opened Hashes
  import Util
  import Constants
  import Anchors

  /** The bounds `new` derives from the sequence length, both by saturating
      subtraction: the last hash index `len - l` and the last first-strobe
      index `len - n * l`. */
  function RandLimits(len: nat, n: nat, l: nat, wMin: nat, wMax: nat): (g: Anchors.Limits)
    ensures g.endHash == if len >= l then len - l else 0
    ensures g.endIdx == if len >= n * l then len - n * l else 0
    ensures g.order == n && g.wMin == wMin && g.wMax == wMax
  {
    Anchors.Limits(n, SaturatingSub(len, l + (n - 1) * l), SaturatingSub(len, l), wMin, wMax)
  }

  /** Order 2 reads `hashes[pos2]` after `choose_min`; when the clipped window
      `[idx + w_min, end_hash]` is empty, `pos2 = idx + w_min` lies past the
      hashes. This holds when an emitting index does not get there. */
  ghost predicate Order2ReadInBounds(g: Anchors.Limits, idx: nat, shrink: bool)
  {
    Anchors.Emits(g, idx, shrink) ==> idx + g.wMin <= g.endHash
  }

  class RandStrobes {
    /** Order (2 or 3), k-mer length and window offsets. */
    const n: u8
    const l: nat
    const wMin: nat
    const wMax: nat
    /** One hash per k-mer start. */
    const hashes: seq<u64>
    /** Last first-strobe index, last hash index. */
    const endIdx: nat
    const endHash: nat

    /** Next first-strobe index; strobe positions of the last item. */
    var idx: nat
    var idx2: nat
    var idx3: nat
    /** Mask of the score, always `2^primeBits - 1`. */
    var prime: u64
    ghost var primeBits: nat
    var shrink: bool
    /** Working registers. */
    var h1: u64
    var h2: u64
    var h3: u64

    ghost predicate Valid()
      reads this
    {
      && (n == 2 || n == 3) && 1 <= wMin <= wMax
      && endIdx <= endHash && |hashes| == endHash + 1
      && IsLowMask(prime, primeBits)
    }

    /** What `next` compares `idx` against. */
    function Bounds(): Anchors.Limits
      reads this
    {
      Anchors.Limits(n as nat, endIdx, endHash, wMin, wMax)
    }

    /** The struct literal of `new`. */
    constructor Init(n: u8, l: nat, wMin: nat, wMax: nat, hashes: seq<u64>, endIdx: nat, endHash: nat)
      requires (n == 2 || n == 3) && 1 <= wMin <= wMax
      requires endIdx <= endHash && |hashes| == endHash + 1
      ensures Valid()
      ensures this.n == n && this.l == l && this.wMin == wMin && this.wMax == wMax && this.hashes == hashes
      ensures this.endIdx == endIdx && this.endHash == endHash
      ensures idx == 0 && idx2 == 0 && idx3 == 0 && h1 == 0 && h2 == 0 && h3 == 0
      ensures prime == Constants.DEFAULT_PRIME_NUMBER && shrink
    {
      this.n := n;
      this.l := l;
      this.wMin := wMin;
      this.wMax := wMax;
      this.hashes := hashes;
      this.endIdx := endIdx;
      this.endHash := endHash;
      idx, idx2, idx3 := 0, 0, 0;
      Constants.DefaultPrimeIsMask();
      prime := Constants.DEFAULT_PRIME_NUMBER;
      primeBits := 20;
      shrink := true;
      h1, h2, h3 := 0, 0, 0;
    }

    /** `RandStrobes::new`: the guard chain, then the k-mer hashes, then the
        saturating bounds. The hashes come from a `KmerHasher`. */
    static method New(s: seq<u8>, n: u8, l: nat, wMin: nat, wMax: nat, hasher: Hasher)
      returns (r: Result<RandStrobes>)
      requires KmerHasherContract(hasher)
      ensures Util.ValidateParams(s, n, l, wMin, wMax).Err? ==> r == Err(Util.ValidateParams(s, n, l, wMin, wMax).error)
      ensures Util.ValidateParams(s, n, l, wMin, wMax).Ok? && hasher(s, l).Err? ==> r == Err(hasher(s, l).error)
      ensures r.Ok? <==> Util.ValidateParams(s, n, l, wMin, wMax).Ok? && hasher(s, l).Ok?
      ensures r.Ok? ==> fresh(r.value) && r.value.Valid() && r.value.hashes == hasher(s, l).value
      ensures r.Ok? ==> r.value.Bounds() == RandLimits(|s|, n as nat, l, wMin, wMax)
      ensures r.Ok? ==> r.value.idx == 0 && r.value.shrink && r.value.prime == Constants.DEFAULT_PRIME_NUMBER
      ensures r.Ok? ==> r.value.idx2 == 0 && r.value.idx3 == 0 && r.value.h1 == 0 && r.value.h2 == 0 && r.value.h3 == 0
      ensures r.Ok? ==> r.value.Index() == None && r.value.Indexes() == [0, 0, 0]
    {
      var v := Util.ValidateParams(s, n, l, wMin, wMax);
      if v.Err? {
        return Err(v.error);
      }
      var hs := hasher(s, l);
      if hs.Err? {
        return Err(hs.error);
      }
      var endHash := SaturatingSub(|s|, l);
      var endIdx := SaturatingSub(|s|, l + (n as nat - 1) * l);
      var m := new RandStrobes.Init(n, l, wMin, wMax, hs.value, endIdx, endHash);
      r := Ok(m);
    }

    /** `set_prime(q)`: below 256 an error and no change; otherwise the mask
        becomes `roundup64(q) - 1`. Above `2^63` `roundup64` panics. */
    method SetPrime(q: u64) returns (r: Result<()>)
      requires Valid() && q <= TWO_63
      modifies this
      ensures Valid()
      ensures q < 256 ==> r == Err(PrimeNumberTooSmall) && prime == old(prime)
      ensures q >= 256 ==> r == Ok(()) && prime == Util.Roundup64(q) - 1
      ensures q >= 256 ==> prime >= q - 1 && 8 <= primeBits <= 63
      ensures idx == old(idx) && idx2 == old(idx2) && idx3 == old(idx3) && shrink == old(shrink)
      ensures h1 == old(h1) && h2 == old(h2) && h3 == old(h3)
    {
      if q < 256 {
        return Err(PrimeNumberTooSmall);
      }
      Util.PrimeMaskFromRequest(q);
      prime := Util.Roundup64(q) - 1;
      primeBits := Util.CeilLog2(q);
      r := Ok(());
    }

    /** `set_window_shrink(s)`. */
    method SetWindowShrink(s: bool)
      requires Valid()
      modifies this
      ensures Valid() && shrink == s
      ensures idx == old(idx) && idx2 == old(idx2) && idx3 == old(idx3) && prime == old(prime)
      ensures h1 == old(h1) && h2 == old(h2) && h3 == old(h3)
    {
      shrink := s;
    }

    /** `index()`: the first-strobe index of the last item, or nothing before
        the first one. */
    function Index(): (r: Option<nat>)
      reads this
      ensures r.None? <==> idx == 0
      ensures r.Some? ==> r.value + 1 == idx
    {
      if idx == 0 then None else Some(idx - 1)
    }

    /** `indexes()`: the three strobe positions of the last item. */
    function Indexes(): (r: seq<nat>)
      reads this
      ensures |r| == 3 && r[1] == idx2 && r[2] == idx3
      ensures r[0] == if idx == 0 then 0 else idx - 1
    {
      [Index().UnwrapOr(0), idx2, idx3]
    }

    /** `choose_min(base, lo..=hi)`: the earliest position of `[lo, hi]`
        minimising the masked score against `base`, with that score. The
        best value starts at `u64::MAX` and a candidate replaces it only on a
        strict `<`, so an empty range leaves `(lo, u64::MAX)`. */
    method ChooseMin(base: u64, lo: nat, hi: nat) returns (bestPos: nat, bestVal: u64)
      requires hi < |hashes|
      ensures lo <= hi ==> IsFirstMinOf(Scores(hashes, base, prime), lo, hi, bestPos)
                           && bestVal == Scores(hashes, base, prime)[bestPos]
      ensures lo > hi ==> bestPos == lo && bestVal == U64_MAX
    {
      ghost var scores := Scores(hashes, base, prime);
      bestPos, bestVal := lo, U64_MAX;
      var pos := lo;
      while pos <= hi
        invariant lo <= pos && (lo <= hi ==> pos <= hi + 1) && (lo > hi ==> pos == lo)
        invariant pos == lo ==> bestPos == lo && bestVal == U64_MAX
        invariant pos > lo ==> IsFirstMinOf(scores, lo, pos - 1, bestPos) && bestVal == scores[bestPos]
      {
        var cand := And(WrappingAdd(base, hashes[pos]), prime);
        if cand < bestVal {
          bestVal := cand;
          bestPos := pos;
        }
        pos := pos + 1;
      }
    }

    /** `next_order2`. Yields when `idx <= end_idx` and the window
        `[idx + w_min, idx + w_max]` fits or may shrink to `end_hash`; its
        strobe is the earliest minimum of the masked score against `h1`. A
        `None` changes nothing. */
    method NextOrder2() returns (r: Option<u64>)
      requires Valid() && Order2ReadInBounds(Anchors.Limits(2, endIdx, endHash, wMin, wMax), idx, shrink)
      modifies this
      ensures Valid()
      ensures r.Some? <==> Anchors.Emits(Anchors.Limits(2, endIdx, endHash, wMin, wMax), old(idx), old(shrink))
      ensures prime == old(prime) && shrink == old(shrink) && idx3 == old(idx3) && h3 == old(h3)
      ensures r.None? ==> idx == old(idx) && idx2 == old(idx2) && h1 == old(h1) && h2 == old(h2)
      ensures r.Some? ==> idx == old(idx) + 1 && h1 == hashes[old(idx)] && r.value == h2
      ensures r.Some? ==> IsFirstMinOf(Scores(hashes, h1, prime), old(idx) + wMin,
                                       Anchors.Min(old(idx) + wMax, endHash), idx2)
                          && h2 == h1 / 2 + hashes[idx2] / 3
    {
      if idx > endIdx {
        return None;
      }
      var wStart := idx + wMin;
      var wEnd := idx + wMax;
      if wEnd > endHash {
        if !shrink {
          return None;
        }
        wEnd := endHash;
      }
      var a1 := hashes[idx];
      var pos2, _ := ChooseMin(a1, wStart, wEnd);
      var b2 := a1 / 2 + hashes[pos2] / 3;
      idx, idx2, h1, h2 := idx + 1, pos2, a1, b2;
      r := Some(b2);
    }

    /** `next_order3`. Yields when `idx <= end_idx`, the second window starts
        at or before `end_hash`, and it fits or may shrink. The first window
        then always fits; each strobe is the earliest minimum of the masked
        score against the combined hash so far. A `None` changes nothing. */
    method NextOrder3() returns (r: Option<u64>)
      requires Valid()
      modifies this
      ensures Valid()
      ensures r.Some? <==> Anchors.Emits(Anchors.Limits(3, endIdx, endHash, wMin, wMax), old(idx), old(shrink))
      ensures prime == old(prime) && shrink == old(shrink)
      ensures r.None? ==> idx == old(idx) && idx2 == old(idx2) && idx3 == old(idx3)
      ensures r.None? ==> h1 == old(h1) && h2 == old(h2) && h3 == old(h3)
      ensures r.Some? ==> idx == old(idx) + 1 && h1 == hashes[old(idx)] && r.value == h3
      ensures r.Some? ==> IsFirstMinOf(Scores(hashes, h1, prime), old(idx) + wMin, old(idx) + wMax, idx2)
                          && h2 == h1 / 3 + hashes[idx2] / 4
      ensures r.Some? ==> IsFirstMinOf(Scores(hashes, h2, prime), old(idx) + wMax + wMin,
                                       Anchors.Min(old(idx) + 2 * wMax, endHash), idx3)
                          && h3 == h2 + hashes[idx3] / 5
    {
      if idx > endIdx {
        return None;
      }
      var w1Start := idx + wMin;
      var w1End := idx + wMax;
      var w2Start := idx + wMax + wMin;
      var w2End := idx + 2 * wMax;
      if w2Start > endHash {
        return None;
      }
      if w2End > endHash {
        if !shrink {
          return None;
        }
        w2End := endHash;
      }
      var a1 := hashes[idx];
      var pos2, _ := ChooseMin(a1, w1Start, w1End);
      var b2 := a1 / 3 + hashes[pos2] / 4;
      var pos3, _ := ChooseMin(b2, w2Start, w2End);
      var b3 := b2 + hashes[pos3] / 5;
      idx, idx2, idx3, h1, h2, h3 := idx + 1, pos2, pos3, a1, b2, b3;
      r := Some(b3);
    }

    /** `next`: dispatch on the order. Yields exactly when the shared
        emission schedule says so, advancing `idx` by one, with the value and
        strobes of `next_order2` or `next_order3`; a `None` leaves every
        field as it was. */
    method Next() returns (r: Option<u64>)
      requires Valid() && (n == 2 ==> Order2ReadInBounds(Bounds(), idx, shrink))
      modifies this
      ensures Valid() && shrink == old(shrink) && prime == old(prime)
      ensures r.Some? <==> Anchors.Emits(Bounds(), old(idx), old(shrink))
      ensures r.Some? ==> idx == old(idx) + 1 && Index() == Some(old(idx)) && h1 == hashes[old(idx)]
      ensures r.None? ==> idx == old(idx) && idx2 == old(idx2) && idx3 == old(idx3)
      ensures r.None? ==> h1 == old(h1) && h2 == old(h2) && h3 == old(h3)
      // order 2: the second strobe, inside the clipped window, and `h1/2 + hashes[idx2]/3`
      ensures n == 2 && r.Some? ==>
                IsFirstMinOf(Scores(hashes, h1, prime), old(idx) + wMin, Anchors.Min(old(idx) + wMax, endHash), idx2)
                && old(idx) + wMin <= idx2 <= endHash
                && r.value == h2 == h1 / 2 + hashes[idx2] / 3 && idx3 == old(idx3) && h3 == old(h3)
      // order 3: both later strobes and `h2 + hashes[idx3]/5`
      ensures n == 3 && r.Some? ==>
                IsFirstMinOf(Scores(hashes, h1, prime), old(idx) + wMin, old(idx) + wMax, idx2)
                && h2 == h1 / 3 + hashes[idx2] / 4
      ensures n == 3 && r.Some? ==>
                IsFirstMinOf(Scores(hashes, h2, prime), old(idx) + wMax + wMin,
                             Anchors.Min(old(idx) + 2 * wMax, endHash), idx3)
                && idx3 <= endHash && r.value == h3 == h2 + hashes[idx3] / 5
    {
      if n == 2 {
        r := NextOrder2();
      } else {
        r := NextOrder3();
      }
    }

    /** `collect()`: `next` until it returns `None`. The values yielded are
        as many as the emission schedule counts from the current index, and
        the iterator stops on the first index that does not yield. For order
        2 every read on the way must stay inside the hashes. */
    method Collect() returns (vs: seq<u64>)
      requires Valid()
      requires n == 2 ==> forall i: nat :: idx <= i ==> Order2ReadInBounds(Bounds(), i, shrink)
      modifies this
      ensures Valid() && shrink == old(shrink) && prime == old(prime)
      ensures |vs| == Anchors.Remaining(Bounds(), old(idx), old(shrink))
      ensures idx == old(idx) + |vs| && !Anchors.Emits(Bounds(), idx, shrink)
      ensures |vs| > 0 ==> vs[|vs| - 1] == if n == 2 then h2 else h3
    {
      vs := [];
      while true
        invariant Valid() && shrink == old(shrink) && prime == old(prime)
        invariant idx == old(idx) + |vs|
        invariant n == 2 ==> forall i: nat :: old(idx) <= i ==> Order2ReadInBounds(Bounds(), i, shrink)
        invariant |vs| + Anchors.Remaining(Bounds(), idx, shrink) == Anchors.Remaining(Bounds(), old(idx), shrink)
        invariant |vs| > 0 ==> vs[|vs| - 1] == if n == 2 then h2 else h3
        decreases endIdx + 1 - idx
      {
        var r := Next();
        if r.None? {
          return;
        }
        vs := vs + [r.value];
      }
    }
  }

  /** When `w_min <= l` and the sequence holds two k-mers, every emitting
      order-2 index reads inside the hashes, whatever the shrink flag. */
  lemma Order2InBoundsWhenOffsetFits(len: nat, l: nat, wMin: nat, wMax: nat, idx: nat, shrink: bool)
    requires len >= 2 * l && wMin <= l
    ensures Order2ReadInBounds(RandLimits(len, 2, l, wMin, wMax), idx, shrink)
  {
  }

  /** The read goes out of bounds on an input the guard chain accepts: six
      bases, `l = 5`, `w_min = 3`, `w_max = 5`. The first index emits, but its
      clipped window `[3, 1]` is empty and `hashes` has two entries. */
  lemma Order2OutOfBoundsExample()
    ensures Util.ValidateParams([65, 67, 71, 84, 65, 67], 2, 5, 3, 5).Ok?
    ensures var g := RandLimits(6, 2, 5, 3, 5);
            Anchors.Emits(g, 0, true) && !Order2ReadInBounds(g, 0, true) && g.endHash + 1 == 2
  {
  }

  /** With shrinking, order 2 yields once per index up to `end_idx`. When
      `w_min <= l` and the sequence holds two k-mers, every one of those
      calls reads inside the hashes, so the source yields all `len - 2l + 1`
      of them; otherwise a call may read past the hashes first
      (`Order2OutOfBoundsExample`). */
  lemma RandStrobesOrder2Counts(len: nat, l: nat, wMin: nat, wMax: nat)
    ensures var g := RandLimits(len, 2, l, wMin, wMax);
            Anchors.Remaining(g, 0, true) == g.endIdx + 1
    ensures len >= 2 * l && wMin <= l ==>
              Anchors.Remaining(RandLimits(len, 2, l, wMin, wMax), 0, true) == len - 2 * l + 1
              && forall idx: nat, shrink :: Order2ReadInBounds(RandLimits(len, 2, l, wMin, wMax), idx, shrink)
  {
    Anchors.RemainingCount(RandLimits(len, 2, l, wMin, wMax), 0, true);
    if len >= 2 * l && wMin <= l {
      forall idx: nat, shrink: bool
        ensures Order2ReadInBounds(RandLimits(len, 2, l, wMin, wMax), idx, shrink)
      {
        Order2InBoundsWhenOffsetFits(len, l, wMin, wMax, idx, shrink);
      }
    }
  }

  /** With shrinking, order 3 stops where the second window would start past
      `end_hash`: `min(end_idx, end_hash - w_max - w_min) + 1` values, or
      none. The saturating bounds make this hold for every length. */
  lemma RandStrobesOrder3Counts(len: nat, l: nat, wMin: nat, wMax: nat)
    ensures var g := RandLimits(len, 3, l, wMin, wMax);
            Anchors.Remaining(g, 0, true) == if Anchors.Min(g.endIdx, g.endHash - wMax - wMin) >= 0
                                             then Anchors.Min(g.endIdx, g.endHash - wMax - wMin) + 1 else 0
  {
    Anchors.RemainingCount(RandLimits(len, 3, l, wMin, wMax), 0, true);
  }

  /** The regression input (16 bases, l = 3, w_min = 3, w_max = 5) gives 11
      and 6 values, and the order-2 read stays in bounds at every index. The
      smoke inputs yield at least one (12 bases, order 2, `l = 3`,
      `w_min = 1`, `w_max = 4`) and at least ten (24 bases, order 3). */
  lemma RandStrobesRegressionCounts()
    ensures Anchors.Remaining(RandLimits(16, 2, 3, 3, 5), 0, true) == 11
    ensures Anchors.Remaining(RandLimits(16, 3, 3, 3, 5), 0, true) == 6
    ensures forall idx: nat, shrink :: Order2ReadInBounds(RandLimits(16, 2, 3, 3, 5), idx, shrink)
    ensures Anchors.Remaining(RandLimits(12, 2, 3, 1, 4), 0, true) >= 1
    ensures Anchors.Remaining(RandLimits(24, 3, 3, 1, 4), 0, true) >= 10
  {
    RandStrobesOrder2Counts(16, 3, 3, 5);
    RandStrobesOrder3Counts(16, 3, 3, 5);
    RandStrobesOrder2Counts(12, 3, 1, 4);
    RandStrobesOrder3Counts(24, 3, 1, 4);
  }
}
