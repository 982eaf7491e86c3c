/** What it means for a position to be the minimum of an inclusive window
    `[lo, hi]` of a score sequence, with either tie-breaking rule the code
    uses, and the masked score sequence of the random-selection rule. */
module Windows {
  import opened Bits

  /** `p` attains the minimum of `s[lo..=hi]` and is the EARLIEST position
      that does (a scan keeping a candidate only on a strict `<`). */
  ghost predicate IsFirstMinOf(s: seq<int>, lo: int, hi: int, p: int)
  {
    && 0 <= lo <= p <= hi < |s|
    && (forall q :: lo <= q <= hi ==> s[p] <= s[q])
    && (forall q :: lo <= q < p ==> s[p] < s[q])
  }

  /** `p` attains the minimum of `s[lo..=hi]` and is the LATEST position
      that does (a deque evicting entries `>=` the newcomer). */
  ghost predicate IsLastMinOf(s: seq<int>, lo: int, hi: int, p: int)
  {
    && 0 <= lo <= p <= hi < |s|
    && (forall q :: lo <= q <= hi ==> s[p] <= s[q])
    && (forall q :: p < q <= hi ==> s[p] < s[q])
  }

  /** Each rule picks exactly one position. */
  lemma FirstMinUnique(s: seq<int>, lo: int, hi: int, p: int, p': int)
    requires IsFirstMinOf(s, lo, hi, p) && IsFirstMinOf(s, lo, hi, p')
    ensures p == p'
  {
    var a, b := s[p], s[p'];  // name both minima, so each quantifier fires on the other
  }

  lemma LastMinUnique(s: seq<int>, lo: int, hi: int, p: int, p': int)
    requires IsLastMinOf(s, lo, hi, p) && IsLastMinOf(s, lo, hi, p')
    ensures p == p'
  {
    var a, b := s[p], s[p'];  // as above
  }

  /** Both rules find the same minimum value; they differ only on ties. */
  lemma FirstAndLastAgreeOnValue(s: seq<int>, lo: int, hi: int, p: int, p': int)
    requires IsFirstMinOf(s, lo, hi, p) && IsLastMinOf(s, lo, hi, p')
    ensures s[p] == s[p'] && p <= p'
  {
  }

  /** The masked score of every candidate position against `base`:
      `(base wrapping_add hashes[p]) & mask`. */
  function Scores(hashes: seq<u64>, base: u64, mask: u64): (r: seq<u64>)
    ensures |r| == |hashes|
    ensures forall p :: 0 <= p < |hashes| ==> r[p] <= mask
  {
    seq(|hashes|, p requires 0 <= p < |hashes| => MaskedScore(base, hashes[p], mask))
  }
}
