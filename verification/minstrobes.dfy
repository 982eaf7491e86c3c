/** The MinStrobes iterator: the second (and third) strobe is the minimum
    hash of a window at a fixed offset after the first. Full windows are
    answered from the sliding-window minimum tables computed once at
    construction; windows clipped at the end of the sequence are scanned. */
module MinStrobesEngine {
  import opened Bits
  import opened Errors
  import opened Windows
  import opened Hashes
  import Util
  import Constants
  import Anchors

  /** The bounds `with_hasher` derives from the sequence length: the last
      hash index `len - k` and the last first-strobe index
      `len - k - (n - 1) * k`, the latter a plain subtraction. */
  function MinLimits(len: nat, n: nat, k: nat, wMin: nat, wMax: nat): (g: Anchors.Limits)
    requires n >= 1 && len >= n * k
    ensures g.endIdx + (n - 1) * k == g.endHash && g.endHash + k == len
    ensures g.order == n && g.wMin == wMin && g.wMax == wMax
  {
    Anchors.Limits(n, len - k - (n - 1) * k, len - k, wMin, wMax)
  }

  /** The order-2 clipped-window scan: the earliest position of the
      minimum hash in `[lo, hi]`, found by keeping a candidate only on a
      strict `<` against a best value starting at `u64::MAX`. An empty range
      leaves `(lo, u64::MAX)`. */
  method ScanMin(hashes: seq<u64>, lo: nat, hi: nat) returns (bestPos: nat, bestHash: u64)
    requires hi < |hashes|
    ensures lo <= hi ==> IsFirstMinOf(hashes, lo, hi, bestPos) && bestHash == hashes[bestPos]
    ensures lo > hi ==> bestPos == lo && bestHash == U64_MAX
  {
    bestHash, bestPos := U64_MAX, lo;
    var pos := lo;
    while pos <= hi
      invariant lo <= pos && (lo <= hi ==> pos <= hi + 1) && (lo > hi ==> pos == lo)
      invariant pos == lo ==> bestPos == lo && bestHash == U64_MAX
      invariant pos > lo ==> IsFirstMinOf(hashes, lo, pos - 1, bestPos) && bestHash == hashes[bestPos]
    {
      var cand := hashes[pos];
      if cand < bestHash {
        bestHash := cand;
        bestPos := pos;
      }
      pos := pos + 1;
    }
  }

  /** The order-3 clipped-window scan: the earliest position in `[lo, hi]`
      minimising `(base + hashes[pos]) & mask`. The sum is not wrapping, so
      each one must fit a `u64`; it then equals the wrapping score. */
  method ScanMaskedMin(hashes: seq<u64>, base: u64, mask: u64, lo: nat, hi: nat)
    returns (bestPos: nat, bestHash: u64)
    requires lo <= hi < |hashes|
    requires forall pos :: lo <= pos <= hi ==> base + hashes[pos] < TWO_64
    ensures IsFirstMinOf(Scores(hashes, base, mask), lo, hi, bestPos)
    ensures bestHash == Scores(hashes, base, mask)[bestPos]
  {
    ghost var scores := Scores(hashes, base, mask);
    bestHash, bestPos := U64_MAX, lo;
    var pos := lo;
    while pos <= hi
      invariant lo <= pos <= hi + 1
      invariant pos == lo ==> bestPos == lo && bestHash == U64_MAX
      invariant pos > lo ==> IsFirstMinOf(scores, lo, pos - 1, bestPos) && bestHash == scores[bestPos]
    {
      var cand := And(base + hashes[pos], mask);
      NonWrappingScore(hashes, base, mask, pos);
      if cand < bestHash {
        bestHash := cand;
        bestPos := pos;
      }
      pos := pos + 1;
    }
  }

  /** Where `base + hashes[pos]` fits a `u64`, the plain sum the order-3
      scan masks is the wrapping score. */
  lemma NonWrappingScore(hashes: seq<u64>, base: u64, mask: u64, pos: nat)
    requires pos < |hashes| && base + hashes[pos] < TWO_64
    ensures Scores(hashes, base, mask)[pos] == And(base + hashes[pos], mask)
  {
  }

  class MinStrobes {
    /** Order (2 or 3) and window offsets. */
    const n: u8
    const wMin: nat
    const wMax: nat
    /** One hash per k-mer start, and the sliding-window minimum tables of
        width `w_max - w_min + 1` over them. */
    const hashes: seq<u64>
    const minloc: seq<nat>
    const minval: seq<u64>
    /** Last first-strobe index, last hash index. */
    const endIdx: nat
    const endHash: nat

    /** Next first-strobe index; strobe positions of the last item. */
    var idx: nat
    var idx2: nat
    var idx3: nat
    /** Mask for the order-3 clipped scan, always `2^primeBits - 1`. */
    var prime: u64
    ghost var primeBits: nat
    var shrink: bool
    /** Working registers. */
    var h1: u64
    var h2: u64
    var h3: u64

    ghost predicate Valid()
      reads this
    {
      && (n == 2 || n == 3) && 1 <= wMin <= wMax
      && endIdx <= endHash && |hashes| == endHash + 1
      && SlidingMin(hashes, wMax - wMin + 1, minloc, minval)
      && IsLowMask(prime, primeBits)
    }

    /** What `next` compares `idx` against. */
    function Bounds(): Anchors.Limits
      reads this
    {
      Anchors.Limits(n as nat, endIdx, endHash, wMin, wMax)
    }

    /** The struct literal of `with_hasher`, after the minimum tables have
        been computed. */
    constructor Init(n: u8, wMin: nat, wMax: nat, hashes: seq<u64>, endIdx: nat, endHash: nat)
      requires (n == 2 || n == 3) && 1 <= wMin <= wMax
      requires endIdx <= endHash && |hashes| == endHash + 1
      ensures Valid()
      ensures this.n == n && this.wMin == wMin && this.wMax == wMax && this.hashes == hashes
      ensures this.endIdx == endIdx && this.endHash == endHash
      ensures idx == 0 && idx2 == 0 && idx3 == 0 && h1 == 0 && h2 == 0 && h3 == 0
      ensures prime == Constants.DEFAULT_PRIME_NUMBER && shrink
    {
      var locs, mins := ComputeMinHashes(hashes, wMax - wMin + 1);
      this.n := n;
      this.wMin := wMin;
      this.wMax := wMax;
      this.hashes := hashes;
      minloc := locs;
      minval := mins;
      this.endIdx := endIdx;
      this.endHash := endHash;
      idx, idx2, idx3 := 0, 0, 0;
      Constants.DefaultPrimeIsMask();
      prime := Constants.DEFAULT_PRIME_NUMBER;
      primeBits := 20;
      shrink := true;
      h1, h2, h3 := 0, 0, 0;
    }

    /** `MinStrobes::with_hasher`: the guard chain, then the hasher, then the
        tables and bounds. The bound `len - k - (n - 1) * k` underflows when
        the sequence is shorter than `n * k`, which the guards do not rule
        out; the source panics there, so callers must not get there. */
    static method WithHasher(s: seq<u8>, n: u8, k: nat, wMin: nat, wMax: nat, hasher: Hasher)
      returns (r: Result<MinStrobes>)
      requires KmerHasherContract(hasher)
      requires Util.ValidateParams(s, n, k, wMin, wMax).Ok? && hasher(s, k).Ok? ==> |s| >= n as nat * k
      ensures Util.ValidateParams(s, n, k, wMin, wMax).Err? ==> r == Err(Util.ValidateParams(s, n, k, wMin, wMax).error)
      ensures Util.ValidateParams(s, n, k, wMin, wMax).Ok? && hasher(s, k).Err? ==> r == Err(hasher(s, k).error)
      ensures r.Ok? <==> Util.ValidateParams(s, n, k, wMin, wMax).Ok? && hasher(s, k).Ok?
      ensures r.Ok? ==> fresh(r.value) && r.value.Valid() && r.value.hashes == hasher(s, k).value
      ensures r.Ok? ==> r.value.Bounds() == MinLimits(|s|, n as nat, k, wMin, wMax)
      ensures r.Ok? ==> r.value.idx == 0 && r.value.shrink && r.value.prime == Constants.DEFAULT_PRIME_NUMBER
      ensures r.Ok? ==> r.value.idx2 == 0 && r.value.idx3 == 0 && r.value.h1 == 0 && r.value.h2 == 0 && r.value.h3 == 0
      ensures r.Ok? ==> r.value.Index() == None && r.value.Indexes() == [0, 0, 0]
    {
      var v := Util.ValidateParams(s, n, k, wMin, wMax);
      if v.Err? {
        return Err(v.error);
      }
      var hs := hasher(s, k);
      if hs.Err? {
        return Err(hs.error);
      }
      var endHash := |s| - k;
      var endIdx := |s| - k - (n as nat - 1) * k;
      var m := new MinStrobes.Init(n, wMin, wMax, hs.value, endIdx, endHash);
      r := Ok(m);
    }

    /** `MinStrobes::new`: `with_hasher` with `NtHash64`, whose per-k-mer
        hash is the parameter `kmerHash`. */
    static method New(s: seq<u8>, n: u8, k: nat, wMin: nat, wMax: nat, kmerHash: seq<u8> -> u64)
      returns (r: Result<MinStrobes>)
      requires Util.ValidateParams(s, n, k, wMin, wMax).Ok? && |s| >= k ==> |s| >= n as nat * k
      ensures Util.ValidateParams(s, n, k, wMin, wMax).Err? ==> r == Err(Util.ValidateParams(s, n, k, wMin, wMax).error)
      ensures Util.ValidateParams(s, n, k, wMin, wMax).Ok? && |s| < k ==> r == Err(SequenceTooShort)
      ensures r.Ok? <==> Util.ValidateParams(s, n, k, wMin, wMax).Ok? && |s| >= k
      ensures r.Ok? ==> fresh(r.value) && r.value.Valid() && r.value.Bounds() == MinLimits(|s|, n as nat, k, wMin, wMax)
      ensures r.Ok? ==> |r.value.hashes| == |s| - k + 1
      ensures r.Ok? ==> forall i :: 0 <= i < |r.value.hashes| ==> r.value.hashes[i] == kmerHash(s[i..i + k])
      ensures r.Ok? ==> r.value.idx == 0 && r.value.shrink && r.value.prime == Constants.DEFAULT_PRIME_NUMBER
      ensures r.Ok? ==> r.value.idx2 == 0 && r.value.idx3 == 0 && r.value.h1 == 0 && r.value.h2 == 0 && r.value.h3 == 0
      ensures r.Ok? ==> r.value.Index() == None && r.value.Indexes() == [0, 0, 0]
    {
      NtHash64MeetsContract(kmerHash);
      r := WithHasher(s, n, k, wMin, wMax, NtHash64(kmerHash));
    }

    /** `set_prime(q)`: below 256 an error and no change; otherwise the mask
        becomes `roundup64(q) - 1`. Above `2^63` `roundup64` panics. */
    method SetPrime(q: u64) returns (r: Result<()>)
      requires Valid() && q <= TWO_63
      modifies this
      ensures Valid()
      ensures q < 256 ==> r == Err(PrimeNumberTooSmall) && prime == old(prime)
      ensures q >= 256 ==> r == Ok(()) && prime == Util.Roundup64(q) - 1
      ensures q >= 256 ==> prime >= q - 1 && 8 <= primeBits <= 63
      ensures idx == old(idx) && idx2 == old(idx2) && idx3 == old(idx3) && shrink == old(shrink)
      ensures h1 == old(h1) && h2 == old(h2) && h3 == old(h3)
    {
      if q < 256 {
        return Err(PrimeNumberTooSmall);
      }
      Util.PrimeMaskFromRequest(q);
      prime := Util.Roundup64(q) - 1;
      primeBits := Util.CeilLog2(q);
      r := Ok(());
    }

    /** `set_window_shrink(s)`. */
    method SetWindowShrink(s: bool)
      requires Valid()
      modifies this
      ensures Valid() && shrink == s
      ensures idx == old(idx) && idx2 == old(idx2) && idx3 == old(idx3) && prime == old(prime)
      ensures h1 == old(h1) && h2 == old(h2) && h3 == old(h3)
    {
      shrink := s;
    }

    /** `index()`: `idx.checked_sub(1)`, the first-strobe index of the last
        item, or nothing before the first one. */
    function Index(): (r: Option<nat>)
      reads this
      ensures r.None? <==> idx == 0
      ensures r.Some? ==> r.value + 1 == idx
    {
      if idx == 0 then None else Some(idx - 1)
    }

    /** A full window ending at `t` is answered by the tables: the latest
        minimum of `[t - (w_max - w_min), t]` and its hash. */
    lemma TableEntry(t: nat)
      requires Valid() && wMax - wMin <= t <= endHash
      ensures IsLastMinOf(hashes, t - (wMax - wMin), t, minloc[t]) && minval[t] == hashes[minloc[t]]
    {
      assert EntryOk(hashes, wMax - wMin + 1, t, minloc[t], minval[t]);
    }

    /** `indexes()`: the three strobe positions of the last item. */
    function Indexes(): (r: seq<nat>)
      reads this
      ensures |r| == 3 && r[1] == idx2 && r[2] == idx3
      ensures r[0] == if idx == 0 then 0 else idx - 1
    {
      [Index().UnwrapOr(0), idx2, idx3]
    }

    /** The order-3 clipped scan at first-strobe index `at` adds
        `h2 + hashes[pos]` without wrapping; the source overflows (a panic)
        unless every such sum fits a `u64`. It depends only on the index, the
        shrink flag and the constant fields. */
    ghost predicate Order3ScanFits(at: nat, shrinking: bool)
    {
      at <= endIdx && at + wMax + wMin <= endHash && at + 2 * wMax > endHash && shrinking
      && endHash < |hashes| && at + wMax < |minval|
      ==> forall pos :: at + wMax + wMin <= pos <= endHash ==>
            hashes[at] / 3 + minval[at + wMax] / 4 + hashes[pos] < TWO_64
    }

    /** `next_order2`. Yields when `idx <= end_idx` and the window
        `[idx + w_min, idx + w_max]` fits or may shrink to `end_hash`. A full
        window's strobe is the table minimum (latest on ties); a clipped one
        is scanned (earliest on ties), and when it is empty the strobe is
        `w_start` with hash `u64::MAX`. `h1` is loaded before the shrink test,
        so a `None` from that test still updates it. */
    method NextOrder2() returns (r: Option<u64>)
      requires Valid()
      modifies this
      ensures Valid()
      ensures r.Some? <==> old(idx) <= endIdx && (old(shrink) || old(idx) + wMax <= endHash)
      ensures prime == old(prime) && shrink == old(shrink) && idx3 == old(idx3) && h3 == old(h3)
      ensures r.None? ==> idx == old(idx) && idx2 == old(idx2) && h2 == old(h2)
      ensures r.None? ==> h1 == if old(idx) <= endIdx then hashes[old(idx)] else old(h1)
      ensures r.Some? ==> idx == old(idx) + 1 && h1 == hashes[old(idx)] && r.value == h2
      ensures r.Some? && old(idx) + wMax <= endHash ==>
                IsLastMinOf(hashes, old(idx) + wMin, old(idx) + wMax, idx2) && h2 == h1 / 2 + hashes[idx2] / 3
      ensures r.Some? && old(idx) + wMax > endHash && old(idx) + wMin <= endHash ==>
                IsFirstMinOf(hashes, old(idx) + wMin, endHash, idx2) && h2 == h1 / 2 + hashes[idx2] / 3
      ensures r.Some? && old(idx) + wMin > endHash ==>
                idx2 == old(idx) + wMin && h2 == h1 / 2 + U64_MAX / 3
    {
      if idx > endIdx {
        return None;
      }
      var wStart := idx + wMin;
      var wEnd := idx + wMax;
      h1 := hashes[idx];
      if wEnd > endHash {
        if !shrink {
          return None;
        }
        wEnd := endHash;
      }
      if wEnd == idx + wMax {
        TableEntry(wEnd);
        idx2 := minloc[wEnd];
        h2 := h1 / 2 + minval[wEnd] / 3;
      } else {
        var bestPos, bestHash := ScanMin(hashes, wStart, wEnd);
        idx2 := bestPos;
        h2 := h1 / 2 + bestHash / 3;
      }
      idx := idx + 1;
      r := Some(h2);
    }

    /** `next_order3`. Yields when `idx <= end_idx`, the second window starts
        at or before `end_hash`, and it fits or may shrink. The first window
        then always fits and its strobe is the table minimum; a full second
        window likewise, a clipped one is the earliest minimum of the masked
        score `(h2 + hashes[pos]) & prime`. A `None` changes nothing. */
    method NextOrder3() returns (r: Option<u64>)
      requires Valid() && Order3ScanFits(idx, shrink)
      modifies this
      ensures Valid()
      ensures r.Some? <==> old(idx) <= endIdx && old(idx) + wMax + wMin <= endHash
                           && (old(shrink) || old(idx) + 2 * wMax <= endHash)
      ensures prime == old(prime) && shrink == old(shrink)
      ensures r.None? ==> idx == old(idx) && idx2 == old(idx2) && idx3 == old(idx3)
      ensures r.None? ==> h1 == old(h1) && h2 == old(h2) && h3 == old(h3)
      ensures r.Some? ==> idx == old(idx) + 1 && h1 == hashes[old(idx)] && r.value == h3
      ensures r.Some? ==> IsLastMinOf(hashes, old(idx) + wMin, old(idx) + wMax, idx2)
                          && h2 == h1 / 3 + hashes[idx2] / 4
      ensures r.Some? && old(idx) + 2 * wMax <= endHash ==>
                IsLastMinOf(hashes, old(idx) + wMax + wMin, old(idx) + 2 * wMax, idx3)
                && h3 == h2 + hashes[idx3] / 5
      ensures r.Some? && old(idx) + 2 * wMax > endHash ==>
                IsFirstMinOf(Scores(hashes, h2, prime), old(idx) + wMax + wMin, endHash, idx3)
                && h3 == h2 + hashes[idx3] / 5
    {
      if idx > endIdx {
        return None;
      }
      var wEnd := idx + wMax;
      var w2Start := idx + wMax + wMin;
      var w2End := idx + 2 * wMax;
      if w2Start > endHash {
        return None;
      }
      if w2End > endHash {
        if !shrink {
          return None;
        }
        w2End := endHash;
      }
      var a1 := hashes[idx];
      TableEntry(wEnd);
      var a2 := minloc[wEnd];
      var b2 := a1 / 3 + minval[wEnd] / 4;
      var a3: nat, b3: u64;
      if w2End == idx + 2 * wMax {
        TableEntry(w2End);
        a3 := minloc[w2End];
        b3 := b2 + minval[w2End] / 5;
      } else {
        var pos3, _ := ScanMaskedMin(hashes, b2, prime, w2Start, w2End);
        a3 := pos3;
        b3 := b2 + hashes[a3] / 5;
      }
      idx, idx2, idx3, h1, h2, h3 := idx + 1, a2, a3, a1, b2, b3;
      r := Some(h3);
    }

    /** `next`: dispatch on the order. Yields exactly when the shared
        emission schedule says so, advancing `idx` by one, with the value and
        strobes of `next_order2` or `next_order3`; a `None` leaves `idx`
        where it was, so with `shrink` fixed it repeats for ever. */
    method Next() returns (r: Option<u64>)
      requires Valid() && (n == 3 ==> Order3ScanFits(idx, shrink))
      modifies this
      ensures Valid() && shrink == old(shrink) && prime == old(prime)
      ensures r.Some? <==> Anchors.Emits(Bounds(), old(idx), old(shrink))
      ensures r.Some? ==> idx == old(idx) + 1 && Index() == Some(old(idx)) && h1 == hashes[old(idx)]
      ensures r.None? ==> idx == old(idx) && idx2 == old(idx2) && idx3 == old(idx3) && h2 == old(h2) && h3 == old(h3)
      ensures n == 2 && r.None? ==> h1 == if old(idx) <= endIdx then hashes[old(idx)] else old(h1)
      ensures n == 3 && r.None? ==> h1 == old(h1)
      // order 2: the second strobe and `h1/2 + m/3`
      ensures n == 2 && r.Some? ==> r.value == h2 && idx3 == old(idx3) && h3 == old(h3)
      ensures n == 2 && r.Some? && old(idx) + wMax <= endHash ==>
                IsLastMinOf(hashes, old(idx) + wMin, old(idx) + wMax, idx2) && h2 == h1 / 2 + hashes[idx2] / 3
      ensures n == 2 && r.Some? && old(idx) + wMax > endHash && old(idx) + wMin <= endHash ==>
                IsFirstMinOf(hashes, old(idx) + wMin, endHash, idx2) && h2 == h1 / 2 + hashes[idx2] / 3
      ensures n == 2 && r.Some? && old(idx) + wMin > endHash ==>
                idx2 == old(idx) + wMin && h2 == h1 / 2 + U64_MAX / 3
      // order 3: both later strobes and `h2 + hashes[idx3]/5`
      ensures n == 3 && r.Some? ==> r.value == h3
      ensures n == 3 && r.Some? ==> IsLastMinOf(hashes, old(idx) + wMin, old(idx) + wMax, idx2)
                                    && h2 == h1 / 3 + hashes[idx2] / 4
      ensures n == 3 && r.Some? && old(idx) + 2 * wMax <= endHash ==>
                IsLastMinOf(hashes, old(idx) + wMax + wMin, old(idx) + 2 * wMax, idx3)
                && h3 == h2 + hashes[idx3] / 5
      ensures n == 3 && r.Some? && old(idx) + 2 * wMax > endHash ==>
                IsFirstMinOf(Scores(hashes, h2, prime), old(idx) + wMax + wMin, endHash, idx3)
                && h3 == h2 + hashes[idx3] / 5
    {
      if n == 2 {
        r := NextOrder2();
      } else {
        r := NextOrder3();
      }
    }

    /** `collect()`: `next` until it returns `None`. The values yielded are
        as many as the emission schedule counts from the current index, and
        the iterator stops on the first index that does not yield. For order
        3 every clipped scan on the way must fit a `u64`. */
    method Collect() returns (vs: seq<u64>)
      requires Valid()
      requires n == 3 ==> forall i: nat :: idx <= i ==> Order3ScanFits(i, shrink)
      modifies this
      ensures Valid() && shrink == old(shrink) && prime == old(prime)
      ensures |vs| == Anchors.Remaining(Bounds(), old(idx), old(shrink))
      ensures idx == old(idx) + |vs| && !Anchors.Emits(Bounds(), idx, shrink)
      ensures |vs| > 0 ==> vs[|vs| - 1] == if n == 2 then h2 else h3
    {
      vs := [];
      while true
        invariant Valid() && shrink == old(shrink) && prime == old(prime)
        invariant idx == old(idx) + |vs|
        invariant n == 3 ==> forall i: nat :: old(idx) <= i ==> Order3ScanFits(i, shrink)
        invariant |vs| + Anchors.Remaining(Bounds(), idx, shrink) == Anchors.Remaining(Bounds(), old(idx), shrink)
        invariant |vs| > 0 ==> vs[|vs| - 1] == if n == 2 then h2 else h3
        decreases endIdx + 1 - idx
      {
        var r := Next();
        if r.None? {
          return;
        }
        vs := vs + [r.value];
      }
    }
  }

  /** Order 2 with shrinking yields one value per first-strobe index up to
      `end_idx`, so `len - 2k + 1` of them; without shrinking no more. */
  lemma MinStrobesOrder2Counts(len: nat, k: nat, wMin: nat, wMax: nat)
    requires len >= 2 * k
    ensures Anchors.Remaining(MinLimits(len, 2, k, wMin, wMax), 0, true) == len - 2 * k + 1
    ensures Anchors.Remaining(MinLimits(len, 2, k, wMin, wMax), 0, false) <= len - 2 * k + 1
  {
    Anchors.RemainingCount(MinLimits(len, 2, k, wMin, wMax), 0, true);
    Anchors.NoShrinkNeverMore(MinLimits(len, 2, k, wMin, wMax), 0);
  }

  /** Order 3 with shrinking stops where the second window would start past
      `end_hash`: `min(end_idx, end_hash - w_max - w_min) + 1` values, or
      none. */
  lemma MinStrobesOrder3Counts(len: nat, k: nat, wMin: nat, wMax: nat)
    requires len >= 3 * k
    ensures var g := MinLimits(len, 3, k, wMin, wMax);
            Anchors.Remaining(g, 0, true) == if Anchors.Min(g.endIdx, g.endHash - wMax - wMin) >= 0
                                             then Anchors.Min(g.endIdx, g.endHash - wMax - wMin) + 1 else 0
  {
    Anchors.RemainingCount(MinLimits(len, 3, k, wMin, wMax), 0, true);
  }

  /** The regression input (16 bases, k = 3, w_min = 3, w_max = 5) gives 11
      and 6 values; order 2 without shrinking gives 9. */
  lemma MinStrobesRegressionCounts()
    ensures Anchors.Remaining(MinLimits(16, 2, 3, 3, 5), 0, true) == 11
    ensures Anchors.Remaining(MinLimits(16, 3, 3, 3, 5), 0, true) == 6
    ensures Anchors.Remaining(MinLimits(16, 2, 3, 3, 5), 0, false) == 9
  {
    MinStrobesOrder2Counts(16, 3, 3, 5);
    MinStrobesOrder3Counts(16, 3, 3, 5);
    Anchors.RemainingCount(MinLimits(16, 2, 3, 3, 5), 0, false);
  }
}
