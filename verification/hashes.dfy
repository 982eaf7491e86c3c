/** Per-k-mer hashing (the pluggable `KmerHasher` contract and the default
    `NtHash64` guards) and the O(n) sliding-window minimum that MinStrobes
    precomputes. */
module Hashes {
  import opened Bits
  import opened Errors
  import opened Windows

  /** `KmerHasher::hash_all(seq, k)`. Being a function, it is deterministic. */
  type Hasher = (seq<u8>, nat) -> Result<seq<u64>>

  /** What the engines rely on from a hasher: a success covers a sequence at
      least `k` long and yields one hash per k-mer start position. */
  ghost predicate KmerHasherContract(hasher: Hasher)
  {
    forall s: seq<u8>, k: nat :: hasher(s, k).Ok? ==> k <= |s| && |hasher(s, k).value| == |s| - k + 1
  }

  /** `NtHash64::hash_all`: the two argument guards, then one hash per k-mer.
      The rolling hash itself belongs to a foreign library and is the
      parameter `kmerHash`, applied to each k-mer's bytes. */
  function NtHash64HashAll(kmerHash: seq<u8> -> u64, s: seq<u8>, k: nat): (r: Result<seq<u64>>)
    ensures !(1 <= k <= 64) ==> r == Err(StrobeLengthTooSmall)
    ensures 1 <= k <= 64 && |s| < k ==> r == Err(SequenceTooShort)
    ensures 1 <= k <= 64 && |s| >= k ==> r.Ok? && |r.value| == |s| - k + 1
    ensures r.Ok? ==> forall i :: 0 <= i < |r.value| ==> r.value[i] == kmerHash(s[i..i + k])
  {
    if !(1 <= k <= 64) then Err(StrobeLengthTooSmall)
    else if |s| < k then Err(SequenceTooShort)
    else Ok(seq(|s| - k + 1, i requires 0 <= i < |s| - k + 1 => kmerHash(s[i..i + k])))
  }

  /** The default hasher, `NtHash64`, as a `Hasher`. */
  function NtHash64(kmerHash: seq<u8> -> u64): Hasher
  {
    (s: seq<u8>, k: nat) => NtHash64HashAll(kmerHash, s, k)
  }

  lemma NtHash64MeetsContract(kmerHash: seq<u8> -> u64)
    ensures KmerHasherContract(NtHash64(kmerHash))
  {
  }

  // ---------------------------------------------------------------------
  // Sliding-window minimum

  /** The entry `(loc, m)` that `compute_min_hashes(hs, w)` leaves at `t`:
      the sentinels `(0, u64::MAX)` while the first window is filling, and
      afterwards the latest position of the minimum of `hs[t-w+1..=t]`
      together with that minimum. */
  ghost predicate EntryOk(hs: seq<u64>, w: nat, t: nat, loc: nat, m: u64)
    requires w >= 1
  {
    if t < w - 1 then loc == 0 && m == U64_MAX
    else IsLastMinOf(hs, t - (w - 1), t, loc) && m == hs[loc]
  }

  ghost predicate SlidingMin(hs: seq<u64>, w: nat, locs: seq<nat>, mins: seq<u64>)
  {
    && w >= 1
    && |locs| == |hs| && |mins| == |hs|
    && forall t :: 0 <= t < |hs| ==> EntryOk(hs, w, t, locs[t], mins[t])
  }

  /** The tables are fully determined by the hashes and the width. */
  lemma SlidingMinUnique(hs: seq<u64>, w: nat, locs: seq<nat>, mins: seq<u64>,
                         locs': seq<nat>, mins': seq<u64>)
    requires SlidingMin(hs, w, locs, mins) && SlidingMin(hs, w, locs', mins')
    ensures locs == locs' && mins == mins'
  {
    forall t | 0 <= t < |hs|
      ensures locs[t] == locs'[t] && mins[t] == mins'[t]
    {
      assert EntryOk(hs, w, t, locs[t], mins[t]) && EntryOk(hs, w, t, locs'[t], mins'[t]);
      if t >= w - 1 {
        LastMinUnique(hs, t - (w - 1), t, locs[t], locs'[t]);
      }
    }
  }

  /** With width 1 every window is a single position: the tables are the
      identity positions and the hashes themselves. */
  lemma SlidingMinWidthOne(hs: seq<u64>, locs: seq<nat>, mins: seq<u64>)
    requires SlidingMin(hs, 1, locs, mins)
    ensures mins == hs
    ensures forall t :: 0 <= t < |hs| ==> locs[t] == t
  {
    forall t | 0 <= t < |hs|
      ensures locs[t] == t && mins[t] == hs[t]
    {
      assert EntryOk(hs, 1, t, locs[t], mins[t]);
    }
  }

  /** The worked example of the source's unit test. */
  lemma SlidingMinExample(locs: seq<nat>, mins: seq<u64>)
    requires SlidingMin([5, 3, 6, 1, 4], 3, locs, mins)
    ensures mins[2..] == [3, 1, 1] && locs[2..] == [1, 3, 3]
  {
    var hs: seq<u64> := [5, 3, 6, 1, 4];
    assert EntryOk(hs, 3, 2, locs[2], mins[2]);
    assert EntryOk(hs, 3, 3, locs[3], mins[3]);
    assert EntryOk(hs, 3, 4, locs[4], mins[4]);
    assert hs[1] < hs[0] && hs[1] < hs[2];
    assert hs[3] < hs[1] && hs[3] < hs[2] && hs[3] < hs[4];
  }

  /** Ties go to the latest position: with equal hashes the window minimum
      of a full window is its last position. */
  lemma SlidingMinTiesGoLate(locs: seq<nat>, mins: seq<u64>)
    requires SlidingMin([7, 7, 7], 2, locs, mins)
    ensures locs[1] == 1 && locs[2] == 2
  {
    var hs: seq<u64> := [7, 7, 7];
    assert EntryOk(hs, 2, 1, locs[1], mins[1]);
    assert EntryOk(hs, 2, 2, locs[2], mins[2]);
    var a, b, c := hs[0], hs[1], hs[2];
  }

  // --- the monotonic deque, as a ghost sequence of positions ---

  /** Positions in the deque increase, and so do their hashes. */
  ghost predicate Increasing(hs: seq<u64>, q: seq<nat>)
  {
    && (forall j :: 0 <= j < |q| ==> q[j] < |hs|)
    && (forall a, b :: 0 <= a < b < |q| ==> q[a] < q[b] && hs[q[a]] < hs[q[b]])
  }

  /** `v` is at most every hash in `hs[lo..=hi]`. */
  ghost predicate Below(hs: seq<u64>, lo: int, hi: int, v: int)
  {
    forall p :: lo <= p <= hi && 0 <= p < |hs| ==> v <= hs[p]
  }

  /** Every deque entry is the minimum of the positions it stands for: the
      front one of everything from `lo` on, each later one of everything
      after its predecessor (the positions evicted behind it). */
  ghost predicate Covers(hs: seq<u64>, q: seq<nat>, lo: nat)
  {
    && (forall j :: 0 <= j < |q| ==> q[j] < |hs|)
    && (|q| > 0 ==> Below(hs, lo, q[0], hs[q[0]]))
    && (forall a, b :: 0 <= a && b == a + 1 && b < |q| ==> Below(hs, q[a] + 1, q[b], hs[q[b]]))
  }

  lemma CoversDropFront(hs: seq<u64>, q: seq<nat>, lo: nat)
    requires Covers(hs, q, lo) && |q| > 0
    ensures Covers(hs, q[1..], q[0] + 1)
  {
    var q' := q[1..];
    if |q'| > 0 {
      assert q'[0] == q[1];
      assert Below(hs, q[0] + 1, q[1], hs[q[1]]);
    }
    forall a, b | 0 <= a && b == a + 1 && b < |q'|
      ensures Below(hs, q'[a] + 1, q'[b], hs[q'[b]])
    {
      assert q'[a] == q[a + 1] && q'[b] == q[b + 1];
      assert Below(hs, q[a + 1] + 1, q[b + 1], hs[q[b + 1]]);
    }
  }

  lemma CoversRaise(hs: seq<u64>, q: seq<nat>, lo: nat, lo': nat)
    requires Covers(hs, q, lo) && lo <= lo'
    ensures Covers(hs, q, lo')
  {
  }

  lemma CoversPrefix(hs: seq<u64>, q: seq<nat>, lo: nat, k: nat)
    requires Covers(hs, q, lo) && k <= |q|
    ensures Covers(hs, q[..k], lo)
  {
    var q' := q[..k];
    if k > 0 {
      assert q'[0] == q[0];
    }
    forall a, b | 0 <= a && b == a + 1 && b < |q'|
      ensures Below(hs, q'[a] + 1, q'[b], hs[q'[b]])
    {
      assert q'[a] == q[a] && q'[b] == q[b];
      assert Below(hs, q[a] + 1, q[b], hs[q[b]]);
    }
  }

  lemma CoversPush(hs: seq<u64>, q: seq<nat>, lo: nat, i: nat)
    requires Covers(hs, q, lo) && i < |hs|
    requires Below(hs, if |q| == 0 then lo else q[|q| - 1] + 1, i, hs[i])
    ensures Covers(hs, q + [i], lo)
  {
    var q' := q + [i];
    assert q'[0] == if |q| == 0 then i else q[0];
    forall a, b | 0 <= a && b == a + 1 && b < |q'|
      ensures Below(hs, q'[a] + 1, q'[b], hs[q'[b]])
    {
      if b < |q| {
        assert q'[a] == q[a] && q'[b] == q[b];
        assert Below(hs, q[a] + 1, q[b], hs[q[b]]);
      } else {
        assert q'[a] == q[|q| - 1] && q'[b] == i;
      }
    }
  }

  /** The front of the deque is the minimum of everything from `lo` to the
      back, and strictly smaller than every later position. */
  lemma {:induction false} FrontIsLastMin(hs: seq<u64>, q: seq<nat>, lo: nat, p: nat)
    requires Increasing(hs, q) && Covers(hs, q, lo) && |q| > 0
    requires lo <= p <= q[|q| - 1]
    ensures hs[q[0]] <= hs[p]
    ensures q[0] < p ==> hs[q[0]] < hs[p]
    decreases |q|
  {
    var k := |q| - 1;
    if k == 0 {
      assert Below(hs, lo, q[0], hs[q[0]]);
    } else if p <= q[k - 1] {
      CoversPrefix(hs, q, lo, k);
      FrontIsLastMin(hs, q[..k], lo, p);
    } else {
      assert Below(hs, q[k - 1] + 1, q[k], hs[q[k]]);
      assert hs[q[k]] <= hs[p];
      assert hs[q[0]] < hs[q[k]];
    }
  }

  /** A strictly increasing run of positions starting at or after `lo` ends
      at least `|q| - 1` places further on. */
  lemma {:induction false} IncreasingSpread(hs: seq<u64>, q: seq<nat>, lo: nat)
    requires Increasing(hs, q) && |q| > 0 && q[0] >= lo
    ensures q[|q| - 1] >= lo + |q| - 1
    decreases |q|
  {
    if |q| > 1 {
      IncreasingSpread(hs, q[..|q| - 1], lo);
    }
  }

  /** Ring position of the `j`-th entry from `head` in `w` slots. */
  function Slot(head: nat, j: nat, w: nat): nat
    requires head < w && j <= w
  {
    if head + j < w then head + j else head + j - w
  }

  lemma ModWrap(a: nat, w: nat)
    requires 0 < w && a < 2 * w
    ensures a % w == if a < w then a else a - w
  {
    if a < w {
      ModUnique(a, w, 0, a);
    } else {
      ModUnique(a, w, 1, a - w);
    }
  }

  /** The ring buffer `idx_q`/`val_q` read from `head` holds the deque `q`. */
  ghost predicate RingHolds(idxQ: array<nat>, valQ: array<u64>, head: nat, q: seq<nat>, hs: seq<u64>)
    reads idxQ, valQ
  {
    && idxQ.Length == valQ.Length
    && head < idxQ.Length
    && |q| <= idxQ.Length
    && forall j :: 0 <= j < |q| ==>
         q[j] < |hs| && idxQ[Slot(head, j, idxQ.Length)] == q[j] && valQ[Slot(head, j, idxQ.Length)] == hs[q[j]]
  }

  /** The deque between steps: the ring holds `q`, whose positions lie in
      `[lo, i)` and increase together with their hashes, each entry being
      the minimum of the positions it stands for. */
  ghost predicate Deque(hs: seq<u64>, idxQ: array<nat>, valQ: array<u64>, head: nat, len: nat,
                        q: seq<nat>, lo: nat, i: nat)
    reads idxQ, valQ
  {
    && i <= |hs|
    && len == |q| && RingHolds(idxQ, valQ, head, q, hs)
    && Increasing(hs, q) && Covers(hs, q, lo)
    && (forall j :: 0 <= j < |q| ==> lo <= q[j] < i)
  }

  /** One step of the first inner loop: dropping the front keeps the deque,
      with the ring read one slot further on. */
  lemma DropFront(hs: seq<u64>, idxQ: array<nat>, valQ: array<u64>, head: nat, len: nat,
                  q: seq<nat>, lo: nat, i: nat)
    requires Deque(hs, idxQ, valQ, head, len, q, lo, i) && len > 0
    ensures (head + 1) % idxQ.Length < idxQ.Length
    ensures Deque(hs, idxQ, valQ, (head + 1) % idxQ.Length, len - 1, q[1..], q[0] + 1, i)
  {
    var w := idxQ.Length;
    ModWrap(head + 1, w);
    var head' := (head + 1) % w;
    CoversDropFront(hs, q, lo);
    forall j | 0 <= j < len - 1
      ensures q[1..][j] < |hs| && idxQ[Slot(head', j, w)] == q[1..][j] && valQ[Slot(head', j, w)] == hs[q[1..][j]]
    {
      assert Slot(head', j, w) == Slot(head, j + 1, w);
    }
    forall a, b | 0 <= a < b < len - 1
      ensures q[1..][a] < q[1..][b] && hs[q[1..][a]] < hs[q[1..][b]]
    {
      assert q[1..][a] == q[a + 1] && q[1..][b] == q[b + 1];
    }
  }

  /** The first inner loop: pop from the front every position before
      `windowStart`. What is left is a suffix of the deque lying wholly in
      the window, and nothing that was in the window is dropped. */
  method EvictExpired(hs: seq<u64>, idxQ: array<nat>, valQ: array<u64>, head: nat, len: nat,
                      ghost q: seq<nat>, ghost lo: nat, ghost i: nat, windowStart: nat)
    returns (head': nat, len': nat, ghost q': seq<nat>)
    requires Deque(hs, idxQ, valQ, head, len, q, lo, i) && lo <= windowStart
    ensures Deque(hs, idxQ, valQ, head', len', q', windowStart, i)
    ensures |q'| <= |q|
    ensures |q| > 0 && q[|q| - 1] >= windowStart ==> |q'| > 0 && q'[|q'| - 1] == q[|q| - 1]
  {
    head', len', q' := head, len, q;
    ghost var lo': nat := lo;
    while len' > 0 && idxQ[head'] < windowStart
      invariant Deque(hs, idxQ, valQ, head', len', q', lo', i) && lo' <= windowStart
      invariant |q'| <= |q|
      invariant |q'| > 0 ==> q'[|q'| - 1] == q[|q| - 1]
      invariant |q'| == 0 ==> |q| == 0 || q[|q| - 1] < windowStart
    {
      assert Slot(head', 0, idxQ.Length) == head';
      DropFront(hs, idxQ, valQ, head', len', q', lo', i);
      lo' := q'[0] + 1;
      head' := (head' + 1) % idxQ.Length;
      len' := len' - 1;
      q' := q'[1..];
    }
    CoversRaise(hs, q', lo', windowStart);
  }

  /** One step of the second inner loop: when the back's hash is at least
      `h`, dropping it keeps the deque and extends the stretch `h` is at
      most over. */
  lemma DropBack(hs: seq<u64>, idxQ: array<nat>, valQ: array<u64>, head: nat, len: nat,
                 q: seq<nat>, lo: nat, i: nat, h: u64)
    requires Deque(hs, idxQ, valQ, head, len, q, lo, i) && len > 0
    requires hs[q[len - 1]] >= h
    requires Below(hs, q[len - 1] + 1, i, h)
    ensures Deque(hs, idxQ, valQ, head, len - 1, q[..len - 1], lo, i)
    ensures Below(hs, if len == 1 then lo else q[len - 2] + 1, i, h)
  {
    if len > 1 {
      assert Below(hs, q[len - 2] + 1, q[len - 1], hs[q[len - 1]]);
    } else {
      assert Below(hs, lo, q[0], hs[q[0]]);
    }
    CoversPrefix(hs, q, lo, len - 1);
  }

  /** The slot `(head + len - 1) % w` read by the second inner loop holds
      the back of the deque. */
  lemma BackSlot(hs: seq<u64>, idxQ: array<nat>, valQ: array<u64>, head: nat, len: nat, q: seq<nat>)
    requires RingHolds(idxQ, valQ, head, q, hs) && len == |q| && len > 0
    ensures (head + len - 1) % idxQ.Length == Slot(head, len - 1, idxQ.Length)
    ensures valQ[(head + len - 1) % idxQ.Length] == hs[q[len - 1]]
  {
    ModWrap(head + len - 1, idxQ.Length);
  }

  /** The second inner loop: pop from the back every position whose hash is
      at least `h`. Afterwards the back is strictly below `h`, and `h` is at
      most every hash between the back and position `i`. */
  method EvictDominated(hs: seq<u64>, idxQ: array<nat>, valQ: array<u64>, head: nat, len: nat,
                        ghost q: seq<nat>, ghost lo: nat, i: nat, h: u64)
    returns (len': nat, ghost q': seq<nat>)
    requires Deque(hs, idxQ, valQ, head, len, q, lo, i) && i < |hs| && h == hs[i]
    requires |q| == 0 ==> lo == i
    requires |q| > 0 ==> q[|q| - 1] == i - 1
    ensures Deque(hs, idxQ, valQ, head, len', q', lo, i)
    ensures |q'| <= |q|
    ensures |q'| > 0 ==> hs[q'[|q'| - 1]] < h
    ensures Below(hs, if |q'| == 0 then lo else q'[|q'| - 1] + 1, i, h)
  {
    len', q' := len, q;
    while len' > 0 && valQ[(head + len' - 1) % idxQ.Length] >= h
      invariant Deque(hs, idxQ, valQ, head, len', q', lo, i)
      invariant |q'| <= |q|
      invariant Below(hs, if |q'| == 0 then lo else q'[|q'| - 1] + 1, i, h)
    {
      BackSlot(hs, idxQ, valQ, head, len', q');
      DropBack(hs, idxQ, valQ, head, len', q', lo, i, h);
      len' := len' - 1;
      q' := q'[..len'];
    }
    if len' > 0 {
      BackSlot(hs, idxQ, valQ, head, len', q');
    }
  }

  /** Store `i` and its hash at the back of the ring. */
  method PushBack(hs: seq<u64>, idxQ: array<nat>, valQ: array<u64>, head: nat, len: nat,
                  ghost q: seq<nat>, ghost lo: nat, i: nat)
    returns (len': nat, ghost q': seq<nat>)
    modifies idxQ, valQ
    requires Deque(hs, idxQ, valQ, head, len, q, lo, i) && i < |hs| && lo <= i && len < idxQ.Length
    requires |q| > 0 ==> hs[q[|q| - 1]] < hs[i]
    requires Below(hs, if |q| == 0 then lo else q[|q| - 1] + 1, i, hs[i])
    ensures q' == q + [i] && len' == len + 1
    ensures Deque(hs, idxQ, valQ, head, len', q', lo, i + 1)
  {
    ModWrap(head + len, idxQ.Length);
    var tail := (head + len) % idxQ.Length;
    idxQ[tail] := i;
    valQ[tail] := hs[i];
    len' := len + 1;
    CoversPush(hs, q, lo, i);
    q' := q + [i];
    forall j | 0 <= j < |q'|
      ensures idxQ[Slot(head, j, idxQ.Length)] == q'[j] && valQ[Slot(head, j, idxQ.Length)] == hs[q'[j]]
    {
      if j < |q| {
        assert Slot(head, j, idxQ.Length) != tail;
      }
    }
  }

  /** After position `i` is pushed, the ring's front slot names the latest
      minimum of `hs[lo..=i]` and holds its hash. */
  lemma FrontIsWindowMin(hs: seq<u64>, idxQ: array<nat>, valQ: array<u64>, head: nat, len: nat,
                         q: seq<nat>, lo: nat, i: nat)
    requires Deque(hs, idxQ, valQ, head, len, q, lo, i + 1)
    requires |q| > 0 && q[|q| - 1] == i
    ensures head < idxQ.Length
    ensures IsLastMinOf(hs, lo, i, idxQ[head]) && valQ[head] == hs[idxQ[head]]
  {
    assert Slot(head, 0, idxQ.Length) == head;
    forall p | lo <= p <= i
      ensures hs[q[0]] <= hs[p] && (q[0] < p ==> hs[q[0]] < hs[p])
    {
      FrontIsLastMin(hs, q, lo, p);
    }
  }

  /** One iteration of the main loop for position `i`: evict what has left
      the window ending at `i`, evict what `hashes[i]` dominates, push `i`.
      Afterwards the deque covers exactly that window and ends at `i`. */
  method Advance(hs: seq<u64>, idxQ: array<nat>, valQ: array<u64>, head: nat, len: nat,
                 ghost q: seq<nat>, ghost lo: nat, i: nat)
    returns (head': nat, len': nat, ghost q': seq<nat>)
    modifies idxQ, valQ
    requires idxQ.Length >= 2 && i < |hs|
    requires Deque(hs, idxQ, valQ, head, len, q, lo, i) && lo <= SaturatingSub(i, idxQ.Length - 1)
    requires i > 0 ==> |q| > 0 && q[|q| - 1] == i - 1
    ensures Deque(hs, idxQ, valQ, head', len', q', SaturatingSub(i, idxQ.Length - 1), i + 1)
    ensures |q'| > 0 && q'[|q'| - 1] == i
  {
    var w := idxQ.Length;
    var h := hs[i];
    var windowStart := SaturatingSub(i, w - 1);
    ghost var q1;
    head', len', q1 := EvictExpired(hs, idxQ, valQ, head, len, q, lo, i, windowStart);
    if i > 0 {
      IncreasingSpread(hs, q1, windowStart);
    }
    ghost var q2;
    len', q2 := EvictDominated(hs, idxQ, valQ, head', len', q1, windowStart, i, h);
    len', q' := PushBack(hs, idxQ, valQ, head', len', q2, windowStart, i);
  }

  /** `compute_min_hashes(hashes, w)`: for every window end `i >= w - 1`,
      the position and value of the minimum of `hashes[i-w+1..=i]` (the
      latest position on ties); sentinels before the first full window.
      A monotonic deque lives in a ring of `w` slots (`idx_q`, `val_q`,
      `head`, `len`); `q` is its contents from the front. The source asserts
      `w >= 1`. */
  method ComputeMinHashes(hashes: seq<u64>, w: nat) returns (locs: seq<nat>, mins: seq<u64>)
    requires w >= 1
    ensures SlidingMin(hashes, w, locs, mins)
  {
    var n := |hashes|;
    if w == 1 {
      locs := seq(n, i => i);
      mins := hashes;
      forall t | 0 <= t < n
        ensures EntryOk(hashes, w, t, locs[t], mins[t])
      {
      }
      return;
    }

    locs := seq(n, _ => 0);
    mins := seq(n, _ => U64_MAX);
    var idxQ := new nat[w](_ => 0);
    var valQ := new u64[w](_ => 0);
    var head: nat, len: nat := 0, 0;
    ghost var q: seq<nat> := [];
    ghost var lo: nat := 0;

    for i := 0 to n
      invariant Deque(hashes, idxQ, valQ, head, len, q, lo, i) && lo <= SaturatingSub(i, w - 1)
      invariant i > 0 ==> |q| > 0 && q[|q| - 1] == i - 1
      invariant |locs| == n && |mins| == n
      invariant forall t :: i <= t < n ==> locs[t] == 0 && mins[t] == U64_MAX
      invariant forall t :: 0 <= t < i ==> EntryOk(hashes, w, t, locs[t], mins[t])
    {
      var windowStart := SaturatingSub(i, w - 1);
      head, len, q := Advance(hashes, idxQ, valQ, head, len, q, lo, i);
      lo := windowStart;

      if i >= w - 1 {
        FrontIsWindowMin(hashes, idxQ, valQ, head, len, q, windowStart, i);
        locs := locs[i := idxQ[head]];
        mins := mins[i := valQ[head]];
      }
    }
  }
}
