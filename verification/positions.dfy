/** Index arithmetic over the cached element counts of consecutive nodes: running totals, the
    node a list position falls in, and the first node that reaches past a stop position. */
module Positions {

  /** Sum of the first `n` counts: the list position where node `n` starts. */
  function Prefix(lens: seq<int>, n: nat): int
    requires n <= |lens|
  {
    if n == 0 then 0 else Prefix(lens, n - 1) + lens[n - 1]
  }

  /** The first node from node `i` on whose running total exceeds `index`, or `|lens|`. */
  function LocateFrom(lens: seq<int>, index: int, i: nat): (j: nat)
    requires i <= |lens|
    ensures i <= j <= |lens|
    ensures j < |lens| ==> index < Prefix(lens, j + 1)
    decreases |lens| - i
  {
    if i == |lens| || index < Prefix(lens, i + 1) then i else LocateFrom(lens, index, i + 1)
  }

  /** The first node whose running total exceeds `index`, or `|lens|` when none does. */
  function Locate(lens: seq<int>, index: int): (j: nat)
    ensures j <= |lens|
    ensures j < |lens| ==> index < Prefix(lens, j + 1)
  {
    LocateFrom(lens, index, 0)
  }

  /** Every running total that `LocateFrom` passes on its way is at most `index`. */
  lemma {:induction false} LocateFromPasses(lens: seq<int>, index: int, i: nat, m: nat)
    requires i <= |lens| && i < m <= LocateFrom(lens, index, i)
    ensures Prefix(lens, m) <= index
    decreases |lens| - i
  {
    if m > i + 1 {
      LocateFromPasses(lens, index, i + 1, m);
    }
  }

  /** Every running total before the one `Locate` stops at is at most `index`: the node found
      is the first whose total exceeds it. */
  lemma LocatePasses(lens: seq<int>, index: int, m: nat)
    requires 1 <= m <= Locate(lens, index)
    ensures Prefix(lens, m) <= index
  {
    LocateFromPasses(lens, index, 0, m);
  }

  /** The position found by `Locate` is inside its node: the offset of `index` from the start of
      that node is below the node's count, and it is not negative unless `index` is. */
  lemma LocateWithin(lens: seq<int>, index: int)
    requires Locate(lens, index) < |lens|
    ensures var j := Locate(lens, index);
            index - Prefix(lens, j) < lens[j] &&
            (0 <= index ==> 0 <= index - Prefix(lens, j))
  {
    var j := Locate(lens, index);
    if 0 < j {
      LocatePasses(lens, index, j);
    }
  }

  /** When the counts are not negative, every `index` below their total falls in some node. */
  lemma LocateFound(lens: seq<int>, index: int)
    requires 0 <= index < Prefix(lens, |lens|)
    ensures Locate(lens, index) < |lens|
  {
    var j := Locate(lens, index);
    if 0 < j {
      LocatePasses(lens, index, j);
    }
  }

  /** A negative index is not resolved: it falls in the first node, at its own value. */
  lemma LocateNegative(lens: seq<int>, index: int)
    requires index < 0 && |lens| > 0 && 0 <= lens[0]
    ensures Locate(lens, index) == 0
    ensures index - Prefix(lens, Locate(lens, index)) == index
  {
    assert Prefix(lens, 1) == lens[0];
  }

  /** The first node from node `i` on whose count exceeds `t`, or `|lens|`. */
  function FirstAboveFrom(lens: seq<int>, t: int, i: nat): (j: nat)
    requires i <= |lens|
    ensures i <= j <= |lens|
    ensures j < |lens| ==> t < lens[j]
    decreases |lens| - i
  {
    if i == |lens| || t < lens[i] then i else FirstAboveFrom(lens, t, i + 1)
  }

  /** The first node whose count exceeds `t`, or `|lens|` when none does. */
  function FirstAbove(lens: seq<int>, t: int): (j: nat)
    ensures j <= |lens|
    ensures j < |lens| ==> t < lens[j]
  {
    FirstAboveFrom(lens, t, 0)
  }

  /** Every count before the one `FirstAboveFrom` stops at is at most `t`. */
  lemma {:induction false} FirstAboveFromPasses(lens: seq<int>, t: int, i: nat, m: nat)
    requires i <= |lens| && i <= m < FirstAboveFrom(lens, t, i)
    ensures lens[m] <= t
    decreases |lens| - i
  {
    if m > i {
      FirstAboveFromPasses(lens, t, i + 1, m);
    }
  }
}
