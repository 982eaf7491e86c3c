# strobemers-rs, modelled in Dafny

A strobemer is a fingerprint made of two or three k-mers (strobes) of a DNA
sequence. The first strobe is at `idx`. Each later strobe is picked from a
window at a fixed offset `[w_min, w_max]` after the previous window. The
crate has two iterators, and each yields one `u64` fingerprint per first-strobe
index:

- **MinStrobes** picks the position of the minimum k-mer hash in each window.
  Full windows are answered from sliding-window minimum tables
  (`compute_min_hashes`) built once at construction. Windows clipped by the
  end of the sequence are scanned.
- **RandStrobes** picks the position minimising
  `(base wrapping_add hash) & prime` (`choose_min`). Here `base` is the
  combined hash so far and `prime` is a `2^m - 1` mask.

The model is organised as follows:

| file | contents |
|---|---|
| `bits.dfy` | `u8`/`u64`, wrapping and saturating arithmetic, bitwise AND over naturals, and the proof that ANDing with `2^m - 1` keeps the low `m` bits |
| `errors.dfy` | `StrobeError`, `Result` and `Option` |
| `constants.dfy` | `DEFAULT_PRIME_NUMBER`, and the `COMPL_BASES` and `SEQ_NT4_TABLE` lookup tables as byte-to-byte functions |
| `util.dfy` | `roundup64`, `complement`, `nt4`, and the `validate_params!` guard chain |
| `windows.dfy` | "earliest minimum" and "latest minimum" of an inclusive window, and the masked score sequence |
| `hashes.dfy` | the `KmerHasher` contract and `NtHash64`'s guards; `compute_min_hashes` as a method over the two ring arrays, proved against a declarative table specification |
| `anchors.dfy` | the emission schedule both iterators share, the number of values it yields, and that exhaustion is sticky |
| `minstrobes.dfy`, `randstrobes.dfy` | the two iterators as classes whose methods update the cursor and register fields |

Both iterators are proved to yield exactly when `Anchors.Emits` says so.
Every `Some` advances `idx` by one, and a `None` leaves it in place. So
`Anchors.Remaining` counts the values an iterator yields (each engine's
`Collect` proves this by draining `next`), and `Anchors.RemainingCount`
gives that count in closed form.

## Model

| member | source | states |
|---|---|---|
| Bits.WrappingAdd | src/randstrobes.rs:155-156 | `wrapping_add` on `u64` is the sum modulo 2^64 |
| Bits.AndLowMask | src/randstrobes.rs:155-157 | `x & (2^m - 1) == x % 2^m`, so every score masked by `prime` is a remainder |
| Bits.MaskedScoreIsRemainder | src/randstrobes.rs:155-157 | the score `(base wrapping_add h) & prime` equals `((base + h) mod 2^64) mod (prime + 1)` for a `2^m - 1` mask |
| Constants.ComplBases | src/constants.rs:13-34 | every entry of `COMPL_BASES` is A, C, G, T or N |
| Constants.SeqNt4Table | src/constants.rs:38-61 | every entry of `SEQ_NT4_TABLE` is at most 4 |
| Constants.DefaultPrimeIsMask | src/constants.rs:6 | `DEFAULT_PRIME_NUMBER` is 1048575, which is `2^20 - 1` |
| Constants.ComplBasesEntries | src/constants.rs:18-31 | `COMPL_BASES` maps A/a to T, C/c to G, G/g to C, T/t to A and U/u to A |
| Constants.ComplBasesDefault | src/constants.rs:13-15 | every byte that is not one of the ten nucleotide letters maps to N, and no letter does |
| Constants.ComplBasesTwiceUpper | src/constants.rs:18-27 | complementing twice is the identity on A, C, G and T |
| Constants.ComplBasesTwiceOthers | src/constants.rs:18-31 | complementing twice does not give back a lower-case base or U, because the table only yields upper-case DNA bases |
| Constants.SeqNt4TableEntries | src/constants.rs:41-58 | `SEQ_NT4_TABLE` maps A/a to 0, C/c to 1, G/g to 2, and T/t/U/u to 3 |
| Constants.SeqNt4TableRange | src/constants.rs:38-60 | every entry is at most 4, and it is below 4 exactly for a nucleotide letter |
| Util.CeilLog2 | src/util.rs:22-24 | the least exponent `m` with `2^m >= x`: `2^m >= x`, and `2^(m-1) < x` when `m > 0` |
| Util.Roundup64 | src/util.rs:22-24 | `next_power_of_two`: a power of two at least `x`, whose half is below `x`; it requires `x <= 2^63` |
| Util.Roundup64Least | src/util.rs:22-24 | no power of two at or above `x` is smaller than `roundup64(x)` |
| Util.Roundup64Examples | src/util.rs:22-24 | 5 rounds to 8, 8 stays 8, and 300 rounds to 512 |
| Util.PrimeMaskFromRequest | src/util.rs:22-24 | for `256 <= q <= 2^63`, `roundup64(q) - 1` is a mask `2^m - 1` with `8 <= m <= 63` and at least `q - 1` |
| Util.Complement | src/util.rs:39-41 | the result is one of A, C, G, T or N, and it is N exactly for a non-nucleotide byte |
| Util.Nt4 | src/util.rs:60-62 | the result is at most 4, and below 4 exactly for a nucleotide byte |
| Util.ValidateParams | src/util.rs:86-109 | succeeds exactly when the five conditions hold. Each failing guard gives its own error, the first one wins: `InvalidSequence`, `OrderNotSupported`, `StrobeLengthTooSmall`, `InvalidWindowOffsets`, then `SequenceTooShort` |
| Util.NonAsciiAccepted | src/util.rs:88-91 | bytes outside ASCII pass the guards, since only emptiness is checked |
| Util.LengthBoundExact | src/util.rs:104-107 | the length guard is tight: `(n-1)(w_max+1)` bytes pass, and one byte fewer fails with `SequenceTooShort` |
| Windows.FirstMinUnique | src/randstrobes.rs:149-164 | the earliest-minimum rule picks a single position |
| Windows.LastMinUnique | src/hashes.rs:75-77 | the latest-minimum rule picks a single position |
| Windows.FirstAndLastAgreeOnValue | src/hashes.rs:75-77 | both rules find the same minimum value, and the earliest position is never after the latest one |
| Windows.Scores | src/randstrobes.rs:155-157 | one score per hash, each at most the mask |
| Hashes.NtHash64HashAll | src/hashes.rs:16-35 | `k` outside `1..=64` gives `StrobeLengthTooSmall`; otherwise a sequence shorter than `k` gives `SequenceTooShort`; otherwise one hash per k-mer start, each the hash of that k-mer |
| Hashes.NtHash64MeetsContract | src/hashes.rs:4-6 | `NtHash64` meets the `KmerHasher` contract: a success has `len - k + 1` hashes |
| Hashes.SlidingMinUnique | src/hashes.rs:38-50 | the tables are fully determined by the hashes and the width |
| Hashes.SlidingMinWidthOne | src/hashes.rs:56-58 | with width 1 the tables are the identity positions and the hashes themselves |
| Hashes.SlidingMinExample | src/hashes.rs:97-107 | `[5,3,6,1,4]` with `w = 3` gives `mins[2..] = [3,1,1]` and `locs[2..] = [1,3,3]` |
| Hashes.SlidingMinTiesGoLate | src/hashes.rs:75-77 | on ties the table keeps the latest position: `[7,7,7]` with `w = 2` gives locations 1 and 2 |
| Hashes.FrontIsLastMin | src/hashes.rs:68-88 | for a deque with increasing positions and values that covers `lo` up to its back position `q[|q|-1]`, the front's hash is at most every hash in `[lo, q[|q|-1]]` and strictly below every later one, so the front is the latest minimum of that range |
| Hashes.EvictExpired | src/hashes.rs:69-73 | dropping expired front entries leaves a valid deque over `[window_start, i)`, no longer than before |
| Hashes.EvictDominated | src/hashes.rs:75-77 | dropping back entries `>= h` leaves a valid deque, no longer than before, whose back is below `h`, and every position after that back, up to `i`, holds a hash `>= h` |
| Hashes.PushBack | src/hashes.rs:79-82 | appending `i` at the tail slot keeps the ring within `w` slots and the deque valid over `[lo, i]` |
| Hashes.FrontIsWindowMin | src/hashes.rs:84-87 | once `i` is pushed, the front slot of the ring holds the latest minimum of the window ending at `i`, with its hash |
| Hashes.Advance | src/hashes.rs:68-83 | one loop iteration: the deque covers the window ending at `i` and ends with `i` |
| Hashes.ComputeMinHashes | src/hashes.rs:52-90 | the returned `(locs, mins)` satisfy `SlidingMin`: the sentinels `(0, u64::MAX)` before the first full window, and afterwards the latest minimum of `hashes[i-w+1..=i]` with its value |
| Anchors.Emits | src/minstrobes.rs:204-221 | the `None` tests of `next_order2`/`next_order3` (the same in src/randstrobes.rs:175-187, 209-228): a yield needs order 2 or 3 and `idx <= end_idx`; without shrinking the first window fits; order 3 needs the second window to start by `end_hash` |
| Anchors.LastAnchor | src/minstrobes.rs:204-221 | an index yields exactly when it is at most the closed-form last anchor |
| Anchors.RemainingCount | src/minstrobes.rs:255-275 | the schedule admits `last_anchor - idx + 1` yields from `idx` on, or none. The engines reach that many only when no call panics first: for MinStrobes order 3, when every clipped second-window sum fits in 64 bits; otherwise a build with overflow checks panics first (see `Collect`) |
| Anchors.Fused | src/randstrobes.rs:175-187 | with `shrink` fixed, after an index that yields `None` no later index yields |
| Anchors.NoShrinkNeverMore | src/randstrobes.rs:182-187 | with `shrink = false` an iterator yields no more values than with `shrink = true` |
| MinStrobesEngine.MinLimits | src/minstrobes.rs:133-135 | `end_hash = len - k` and `end_idx = end_hash - (n-1)k`, both plain subtractions that need `len >= n*k` |
| MinStrobesEngine.ScanMin | src/minstrobes.rs:229-237 | over a non-empty range: the earliest position of the minimum hash, with its hash; over an empty range: `(w_start, u64::MAX)` |
| MinStrobesEngine.ScanMaskedMin | src/minstrobes.rs:289-298 | the earliest position minimising `(h2 + hashes[pos]) & prime`, with its score, when no sum overflows |
| MinStrobesEngine.MinStrobes.TableEntry | src/minstrobes.rs:225-227 | a full window ending at `t` is answered by `minloc[t]`/`minval[t]`: the latest minimum and its hash |
| MinStrobesEngine.MinStrobes.Init | src/minstrobes.rs:137-154 | the struct literal: the given parameters, hashes, tables and bounds; cursors and registers 0, the default prime, shrinking on |
| MinStrobesEngine.MinStrobes.WithHasher | src/minstrobes.rs:112-155 | the guard error, then the hasher error; otherwise a valid engine holding the hasher's hashes, the tables and the bounds, with `idx = idx2 = idx3 = 0`, `h1 = h2 = h3 = 0`, shrinking on and the default prime, so `index()` is `None` and `indexes()` is `[0, 0, 0]` |
| MinStrobesEngine.MinStrobes.New | src/minstrobes.rs:70-72 | `with_hasher` with `NtHash64`: the guard error, then `SequenceTooShort` for a sequence shorter than `k`; otherwise `len - k + 1` hashes, each the k-mer's hash, and the same initial state as `with_hasher`: every cursor and register 0, shrinking on, the default prime, `index()` `None` and `indexes()` `[0, 0, 0]` |
| MinStrobesEngine.MinStrobes.SetPrime | src/minstrobes.rs:170-177 | below 256 it gives `PrimeNumberTooSmall` and the mask is unchanged; otherwise the mask is `roundup64(q) - 1`, still a `2^m - 1` mask and at least `q - 1`; nothing else changes |
| MinStrobesEngine.MinStrobes.SetWindowShrink | src/minstrobes.rs:183-185 | sets the flag and changes nothing else |
| MinStrobesEngine.MinStrobes.Index | src/minstrobes.rs:190-192 | `None` exactly before the first item (`idx == 0`), otherwise `idx - 1` |
| MinStrobesEngine.MinStrobes.Indexes | src/minstrobes.rs:197-199 | `[idx - 1 or 0, idx2, idx3]` |
| MinStrobesEngine.MinStrobes.NextOrder2 | src/minstrobes.rs:202-245 | yields exactly when `idx <= end_idx` and the window fits or may shrink. A full window gives its latest minimum; a clipped one gives its earliest minimum, or `(w_start, u64::MAX)` when empty. The value is `h1/2 + m/3` and `idx` advances by one. A `None` only reloads `h1`. It leaves `prime` unchanged, which order 2 never reads |
| MinStrobesEngine.MinStrobes.NextOrder3 | src/minstrobes.rs:253-306 | yields exactly when `idx <= end_idx`, the second window starts by `end_hash`, and it fits or may shrink. The first window is always a table lookup; the second is a table lookup when full, and otherwise the earliest masked-score minimum. Gives `h2 = h1/3 + m2/4` and `h3 = h2 + hashes[idx3]/5`. A `None` changes nothing |
| MinStrobesEngine.MinStrobes.Next | src/minstrobes.rs:316-322 | yields exactly when the shared emission schedule does, and then `idx` advances by one and `index() == Some(old idx)`. The yielded value and the chosen strobes are those of `next_order2` (order 2) or `next_order3` (order 3), as stated there. An order-2 `Some` leaves `idx3` and `h3` in place. A `None` leaves `idx`, `idx2`, `idx3`, `h2` and `h3` in place |
| MinStrobesEngine.MinStrobes.Collect | src/minstrobes.rs:309-322 | calling `next` until `None` (as `collect()` does) yields exactly `Remaining(bounds, idx, shrink)` values, advances `idx` by that many, stops at an index the schedule does not emit, and the last value is the last `h2` (order 2) or `h3` (order 3). For order 3 it requires every clipped scan from `idx` on to fit in 64 bits |
| MinStrobesEngine.MinStrobesOrder2Counts | src/minstrobes.rs:204-221 | for every length `>= 2k`, order 2 with shrinking yields `len - 2k + 1` values, and without shrinking no more |
| MinStrobesEngine.MinStrobesOrder3Counts | src/minstrobes.rs:255-275 | for every length `>= 3k`, the order-3 schedule with shrinking admits `min(end_idx, end_hash - w_max - w_min) + 1` values, or none. The engine yields them all when every clipped second-window sum fits in 64 bits; otherwise a build with overflow checks panics first |
| MinStrobesEngine.MinStrobesRegressionCounts | tests/regression.rs:8-19 | the regression input yields 11 values for order 2 and 6 for order 3; order 2 without shrinking yields 9 |
| RandStrobesEngine.RandLimits | src/randstrobes.rs:69-72 | `end_hash = len ⊖ l` and `end_idx = len ⊖ n*l`, both saturating |
| RandStrobesEngine.Order2InBoundsWhenOffsetFits | src/randstrobes.rs:180-195 | when `w_min <= l` and `len >= 2l`, every yielding order-2 index reads inside the hashes |
| RandStrobesEngine.Order2OutOfBoundsExample | src/randstrobes.rs:180-195 | an input the guards accept (6 bases, `l = 5`, `w_min = 3`, `w_max = 5`) yields at index 0 with an empty clipped window, so `hashes[pos2]` is read past the two hashes |
| RandStrobesEngine.RandStrobes.Init | src/randstrobes.rs:74-90 | the struct literal: the given parameters, hashes and bounds; cursors and registers 0, the default prime, shrinking on |
| RandStrobesEngine.RandStrobes.New | src/randstrobes.rs:62-91 | the guard error, then the hasher error; otherwise a valid engine with the hasher's hashes, the saturating bounds, `idx = idx2 = idx3 = 0`, `h1 = h2 = h3 = 0`, shrinking on and the default prime, so `index()` is `None` and `indexes()` is `[0, 0, 0]` |
| RandStrobesEngine.RandStrobes.SetPrime | src/randstrobes.rs:107-114 | below 256 it gives `PrimeNumberTooSmall` and the mask is unchanged; otherwise the mask is `roundup64(q) - 1`, a `2^m - 1` mask at least `q - 1`; nothing else changes |
| RandStrobesEngine.RandStrobes.SetWindowShrink | src/randstrobes.rs:120-122 | sets the flag and changes nothing else |
| RandStrobesEngine.RandStrobes.Index | src/randstrobes.rs:127-129 | `None` exactly before the first item (`idx == 0`), otherwise `idx - 1` |
| RandStrobesEngine.RandStrobes.Indexes | src/randstrobes.rs:134-136 | `[idx - 1 or 0, idx2, idx3]` |
| RandStrobesEngine.RandStrobes.ChooseMin | src/randstrobes.rs:149-164 | over a non-empty range: the earliest position minimising `(base wrapping_add hashes[pos]) & prime`, and that score; over an empty range: `(start, u64::MAX)` |
| RandStrobesEngine.RandStrobes.NextOrder2 | src/randstrobes.rs:174-200 | yields exactly when `idx <= end_idx` and the window fits or may shrink; `idx2` is the earliest minimum of the masked score against `h1` over the (clipped) window, and the value is `h1/2 + hashes[idx2]/3`; a `None` changes nothing |
| RandStrobesEngine.RandStrobes.NextOrder3 | src/randstrobes.rs:208-245 | yields exactly when `idx <= end_idx`, the second window starts by `end_hash`, and it fits or may shrink; `idx2` and `idx3` are the earliest masked-score minima of their windows; the values are `h2 = h1/3 + hashes[idx2]/4` and `h3 = h2 + hashes[idx3]/5`; a `None` changes nothing |
| RandStrobesEngine.RandStrobes.Next | src/randstrobes.rs:255-261 | yields exactly when the shared emission schedule does, and then `idx` advances by one and `index() == Some(old idx)`. Order 2: `idx2` is the earliest masked-score minimum of the clipped window, so `idx + w_min <= idx2 <= end_hash`, and the value is `h1/2 + hashes[idx2]/3`. Order 3: `idx2` and `idx3` are the earliest masked-score minima of their windows, and the value is `h3 = h2 + hashes[idx3]/5`, with `h2 = h1/3 + hashes[idx2]/4`. An order-2 `Some` leaves `idx3` and `h3` in place; a `None` changes no field |
| RandStrobesEngine.RandStrobes.Collect | src/randstrobes.rs:248-261 | calling `next` until `None` yields exactly `Remaining(bounds, idx, shrink)` values, advances `idx` by that many, stops at an index the schedule does not emit, and the last value is the last `h2` or `h3`. For order 2 it requires every read from `idx` on to stay inside the hashes |
| RandStrobesEngine.RandStrobesOrder2Counts | src/randstrobes.rs:174-200 | with shrinking, the order-2 schedule admits `end_idx + 1` calls. When `w_min <= l` and `len >= 2l`, every one of them reads in bounds, so the source yields exactly `len - 2l + 1` values. Otherwise it may panic first |
| RandStrobesEngine.RandStrobesOrder3Counts | src/randstrobes.rs:208-228 | for every length, order 3 with shrinking yields `min(end_idx, end_hash - w_max - w_min) + 1` values, or none |
| RandStrobesEngine.RandStrobesRegressionCounts | tests/regression.rs:8-19 | the regression input yields 11 and 6 values and never reads out of bounds; the smoke inputs yield at least 1 and at least 10 values |

## Left out

- The ntHash rolling hash from the `nthash_rs` crate is a foreign library. `NtHash64` takes the per-k-mer hash as a parameter and keeps only its two argument guards. The library may skip k-mers that contain non-ACGT bytes and return fewer than `len - k + 1` hashes. The `KmerHasher` contract assumes exactly `len - k + 1`; a hasher that does not meet it is outside the model.
- The `NtHashError` variant carries no payload.
- `InvalidOrder` and `IncompleteHashValues` are declared but never produced by the modelled code.
- The `Send + Sync + 'static` bounds, `src/lib.rs` wiring, the `Iterator` adaptors other than `collect` (`take`, ...), the examples and the benchmarks are not modelled.
- `compute_hashes`: src/randstrobes.rs:3 imports it from `hashes` and src/randstrobes.rs:67 calls it, but src/hashes.rs defines no such function, so the crate as given does not build. `RandStrobesEngine.RandStrobes.New` therefore takes a `KmerHasher`, as `MinStrobes::with_hasher` does.
- `usize` overflow, for example in `w_max << 1` or `idx + w_max`, is not modelled: indices are unbounded naturals.
- Out-of-bounds reads and overflow panics are not modelled as behaviour. Each becomes a precondition on the caller:
  - MinStrobesEngine.MinStrobes.WithHasher requires `len >= n*k` whenever the guards and the hasher succeed. Below that, `end_idx` underflows at src/minstrobes.rs:135: a panic in debug builds and a huge bound in release builds.
  - MinStrobesEngine.MinStrobes.NextOrder3 requires `Order3ScanFits`: every non-wrapping sum `h2 + hashes[pos]` at src/minstrobes.rs:293 fits a `u64`.
  - RandStrobesEngine.RandStrobes.NextOrder2 requires `Order2ReadInBounds`. Without it the read at src/randstrobes.rs:195 is out of bounds. `Order2OutOfBoundsExample` shows that the guards alone do not exclude this.
- Util.Roundup64 requires `x <= 2^63`, since `next_power_of_two` panics or wraps above that. For the same reason `SetPrime` requires `q <= 2^63`. Its doc comment describes an "OR with 1" sequence, but the code is `next_power_of_two`, and the model follows the code.
- `compute_min_hashes` writes `locs` and `mins` in place into vectors. The model builds them as sequence values; the ring buffers `idx_q` and `val_q` stay arrays.
- `compute_min_hashes` breaks ties by keeping the LATEST position. The clipped-window scans and `choose_min` keep the EARLIEST. The model follows the code in each place.
- The `_ => None` arm of `next` cannot be reached once the engine is constructed, because the guards fix `n` to 2 or 3.
- RandStrobesOrder2Counts: the count `len - 2l + 1` is promised only when `w_min <= l` and `len >= 2l`. Otherwise an emitting call may read past the hashes and the source panics before yielding them all.
- MinStrobesOrder3Counts: counts the schedule only. The engine yields that many values only when every clipped second-window sum `h2 + hashes[pos]` at src/minstrobes.rs:293 fits in 64 bits (`Order3ScanFits` at every index, the hypothesis of `MinStrobes.Collect`). Otherwise a build with overflow checks panics first.
- MinStrobesEngine.ScanMaskedMin states its result against the wrapping score sequence `Scores`. Under its no-overflow precondition, each non-wrapping sum the code masks equals that score.
