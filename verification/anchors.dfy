/** When an engine emits: both MinStrobes and RandStrobes return `None`
    under the same conditions on the first-strobe index `idx`, so how many
    strobemers an engine yields depends only on its bounds, its order and the
    shrink flag, and not on the hashes. */
module Anchors {

  /** The fixed quantities a `next` call compares `idx` against. */
  datatype Limits = Limits(order: nat, endIdx: nat, endHash: nat, wMin: nat, wMax: nat)

  /** Whether `next` at first-strobe index `idx` yields a value. Order 2
      needs `idx <= end_idx` and, without shrinking, the whole window
      `idx + w_max` inside the hashes; order 3 additionally needs the second
      window to start inside them, and without shrinking to end inside
      them. Any other order never yields. */
  predicate Emits(g: Limits, idx: nat, shrink: bool): (b: bool)
    ensures b ==> (g.order == 2 || g.order == 3) && idx <= g.endIdx
    ensures b && !shrink ==> idx + g.wMax <= g.endHash
    ensures b && g.order == 3 ==> idx + g.wMax + g.wMin <= g.endHash
  {
    if g.order == 2 then
      idx <= g.endIdx && (shrink || idx + g.wMax <= g.endHash)
    else if g.order == 3 then
      idx <= g.endIdx && idx + g.wMax + g.wMin <= g.endHash
      && (shrink || idx + 2 * g.wMax <= g.endHash)
    else false
  }

  /** How many values repeated calls of `next` yield from index `idx` on:
      each yield advances `idx` by one, a `None` changes nothing. */
  function Remaining(g: Limits, idx: nat, shrink: bool): nat
    decreases g.endIdx + 1 - idx
  {
    if Emits(g, idx, shrink) then 1 + Remaining(g, idx + 1, shrink) else 0
  }

  function Min(a: int, b: int): int
  {
    if a <= b then a else b
  }

  /** The last index that yields, or -1 when none does, in closed form. */
  function LastAnchor(g: Limits, shrink: bool): (r: int)
    ensures r >= -1
    ensures forall idx: nat :: Emits(g, idx, shrink) <==> idx <= r
  {
    var bound :=
      if g.order == 2 then
        (if shrink then g.endIdx else Min(g.endIdx, g.endHash - g.wMax))
      else if g.order == 3 then
        (var b := Min(g.endIdx, g.endHash - g.wMax - g.wMin);
         if shrink then b else Min(b, g.endHash - 2 * g.wMax))
      else -1;
    if bound < -1 then -1 else bound
  }

  /** The number of yields is the number of indices from `idx` up to the
      last anchor. */
  lemma {:induction false} RemainingCount(g: Limits, idx: nat, shrink: bool)
    ensures Remaining(g, idx, shrink) == if LastAnchor(g, shrink) >= idx then LastAnchor(g, shrink) - idx + 1 else 0
    decreases g.endIdx + 1 - idx
  {
    if Emits(g, idx, shrink) {
      RemainingCount(g, idx + 1, shrink);
    }
  }

  /** Once `next` has returned `None` it returns `None` for ever: nothing
      after a non-yielding index yields. */
  lemma Fused(g: Limits, idx: nat, later: nat, shrink: bool)
    requires !Emits(g, idx, shrink) && idx <= later
    ensures !Emits(g, later, shrink)
    ensures Remaining(g, later, shrink) == 0
  {
  }

  /** Turning shrinking off never adds strobemers. */
  lemma {:induction false} NoShrinkNeverMore(g: Limits, idx: nat)
    ensures Remaining(g, idx, false) <= Remaining(g, idx, true)
    decreases g.endIdx + 1 - idx
  {
    if Emits(g, idx, false) {
      NoShrinkNeverMore(g, idx + 1);
    }
  }
}
