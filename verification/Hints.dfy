/** The search hint: 16 evenly spaced slot heads that narrow a page's binary search. */
module Hints {
  import opened Arithmetic
  import opened Bytes
  import opened Pages

  const HINT_COUNT: nat := 16

  /** Distance between hinted slots on a page with count slots. */
  function Dist(count: nat): nat { count / (HINT_COUNT + 1) }

  /** hint holds what makeHint would compute from heads. */
  ghost predicate HintsMatch(hint: seq<nat>, heads: seq<nat>) {
    |hint| == HINT_COUNT && forall i :: 0 <= i < HINT_COUNT ==> HintMatches(hint, heads, i)
  }

  ghost predicate HintMatches(hint: seq<nat>, heads: seq<nat>, i: nat) {
    i < |hint| && Dist(|heads|) * (i + 1) < |heads| && hint[i] == heads[Dist(|heads|) * (i + 1)]
  }

  lemma {:induction false} DistBound(count: nat, i: nat)
    requires i < HINT_COUNT
    ensures 0 <= Dist(count) * (i + 1) <= Dist(count) * HINT_COUNT
    ensures count > 0 ==> Dist(count) * HINT_COUNT < count
  {
    var d := Dist(count);
    assert d * 17 <= count;
    MulLe(d, i + 1, HINT_COUNT);
  }

  /** heads with h inserted at slotId. */
  function Inserted(heads: seq<nat>, slotId: nat, h: nat): (r: seq<nat>)
    requires slotId <= |heads|
    ensures |r| == |heads| + 1
  {
    heads[..slotId] + [h] + heads[slotId..]
  }

  /** Hints that updateHint leaves alone are still right: they lie before the new slot, at the old distance. */
  lemma {:induction false} KeptHint(hint: seq<nat>, heads: seq<nat>, slotId: nat, h: nat, i: nat)
    requires heads != [] && HintsMatch(hint, heads) && slotId <= |heads|
    requires Dist(|heads|) == Dist(|heads| + 1) > 0
    requires i + 1 < slotId / Dist(|heads|)
    requires i < HINT_COUNT
    ensures HintMatches(hint, Inserted(heads, slotId, h), i)
  {
    var d := Dist(|heads|);
    assert HintMatches(hint, heads, i);
    DivFloor(slotId, d);
    DistBound(|heads| + 1, i);
    hide Dist;
    BeforeSlot(d, i, slotId / d);
    assert Inserted(heads, slotId, h)[d * (i + 1)] == heads[d * (i + 1)];
  }

  lemma {:induction false} DivFloor(n: nat, d: nat)
    requires d > 0
    ensures d * (n / d) <= n
  {
  }

  lemma {:induction false} BeforeSlot(d: nat, i: nat, q: nat)
    requires d > 0 && i + 1 < q
    ensures d * (i + 1) < d * q
  {
    MulLe(d, i + 2, q);
    assert d * (i + 2) == d * (i + 1) + d;
  }

  ghost predicate Ascending(heads: seq<nat>) {
    forall i, j :: 0 <= i <= j < |heads| ==> heads[i] <= heads[j]
  }

  lemma {:induction false} HintLower(hint: seq<nat>, heads: seq<nat>, keyHead: nat, pos: nat)
    requires HintsMatch(hint, heads) && Ascending(heads) && pos <= HINT_COUNT && |heads| > 0
    requires pos > 0 ==> hint[pos - 1] < keyHead
    ensures pos * Dist(|heads|) <= |heads|
    ensures forall i :: 0 <= i < pos * Dist(|heads|) ==> heads[i] < keyHead
  {
    if pos > 0 {
      assert HintMatches(hint, heads, pos - 1);
      assert Dist(|heads|) * (pos - 1 + 1) == pos * Dist(|heads|);
    }
  }

  lemma {:induction false} HintUpper(hint: seq<nat>, heads: seq<nat>, keyHead: nat, pos: nat, pos2: nat)
    requires HintsMatch(hint, heads) && Ascending(heads) && pos <= pos2 < HINT_COUNT && |heads| > 0
    requires hint[pos] >= keyHead && hint[pos2] != keyHead
    ensures pos * Dist(|heads|) <= (pos2 + 1) * Dist(|heads|) <= |heads|
    ensures forall i :: (pos2 + 1) * Dist(|heads|) <= i < |heads| ==> keyHead < heads[i]
  {
    var d := Dist(|heads|);
    assert HintMatches(hint, heads, pos) && HintMatches(hint, heads, pos2);
    MulLe(d, pos, pos2 + 1);
    MulLe(d, pos + 1, pos2 + 1);
    assert d * (pos2 + 1) == (pos2 + 1) * d && d * pos == pos * d;
  }

  /** The range begins within one distance before a head that is not smaller, and ends within one distance behind its
      own beginning or a head that is equal; a range that is open at an end passes the last hint there. */
  ghost predicate Tight(heads: seq<nat>, keyHead: nat, lower: nat, upper: nat) {
    var d := Dist(|heads|);
    && d * HINT_COUNT < |heads|
    && (lower < d * HINT_COUNT ==> lower + d < |heads| && heads[lower + d] >= keyHead)
    && (upper < |heads| ==> upper == lower + d || (d <= upper && heads[upper - d] == keyHead))
    && (upper >= |heads| ==> lower == d * HINT_COUNT || heads[d * HINT_COUNT] == keyHead)
  }

  lemma {:induction false} HintTight(hint: seq<nat>, heads: seq<nat>, keyHead: nat, pos: nat, pos2: nat)
    requires HintsMatch(hint, heads) && heads != [] && pos <= pos2 <= HINT_COUNT
    requires (pos < HINT_COUNT ==> hint[pos] >= keyHead) && (pos < pos2 ==> hint[pos2 - 1] == keyHead)
    ensures var d := Dist(|heads|);
      Tight(heads, keyHead, pos * d, if pos2 < HINT_COUNT then (pos2 + 1) * d else |heads|)
  {
    var d := Dist(|heads|);
    hide Dist, HintsMatch, Tight;
    DistBound(|heads|, 0);
    if pos < HINT_COUNT { HintBehind(hint, heads, pos); }
    if pos < pos2 { HintBefore(hint, heads, pos2); }
    if pos2 < HINT_COUNT { HintBehind(hint, heads, pos2); }
    OneMore(d, pos2);
    TightFrom(heads, keyHead, pos * d, pos2 * d, pos2 == HINT_COUNT);
  }

  /** Without the arithmetic. */
  lemma {:induction false} TightFrom(heads: seq<nat>, keyHead: nat, lower: nat, last: nat, open: bool)
    requires Dist(|heads|) * HINT_COUNT < |heads|
    requires lower == Dist(|heads|) * HINT_COUNT
          || (lower + Dist(|heads|) < |heads| && heads[lower + Dist(|heads|)] >= keyHead)
    requires last == lower || (last < |heads| && heads[last] == keyHead)
    requires if open then last == Dist(|heads|) * HINT_COUNT else last + Dist(|heads|) < |heads|
    ensures Tight(heads, keyHead, lower, if open then |heads| else last + Dist(|heads|))
  {
    hide Dist;
  }

  lemma {:induction false} OneMore(d: nat, k: nat)
    ensures (k + 1) * d == k * d + d
  {
  }

  lemma {:induction false} HintBehind(hint: seq<nat>, heads: seq<nat>, k: nat)
    requires HintsMatch(hint, heads) && k < HINT_COUNT
    ensures k * Dist(|heads|) + Dist(|heads|) < |heads|
    ensures hint[k] == heads[k * Dist(|heads|) + Dist(|heads|)]
  {
    assert HintMatches(hint, heads, k);
    hide Dist, HintsMatch;
    assert Dist(|heads|) * (k + 1) == k * Dist(|heads|) + Dist(|heads|);
  }

  lemma {:induction false} HintBefore(hint: seq<nat>, heads: seq<nat>, k: nat)
    requires HintsMatch(hint, heads) && 0 < k <= HINT_COUNT
    ensures k * Dist(|heads|) < |heads| && hint[k - 1] == heads[k * Dist(|heads|)]
  {
    assert HintMatches(hint, heads, k - 1);
    hide Dist, HintsMatch;
    assert Dist(|heads|) * (k - 1 + 1) == k * Dist(|heads|);
  }
}
