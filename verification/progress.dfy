/** Progress percentages reported to the callbacks of both ends of a
    transfer, in integer arithmetic, with the facts about integer division
    they rest on. */
module Progress {
  /** The progress percentage after `total` of `size` bytes:
      `int((total / size) * 100)`, in integer arithmetic. Never negative, and
      at most 100 while no more than the whole file has been moved. */
  function Percent(total: nat, size: nat): (p: int)
    requires size > 0
    ensures p >= 0
    ensures total <= size ==> p <= 100
  {
    if total <= size then
      MulMonotone(100, total, size);
      DivBelow(100 * total, size, 100);
      100 * total / size
    else 100 * total / size
  }

  /** The whole file sent reads as 100 percent. */
  lemma PercentFull(size: nat)
    requires size > 0
    ensures Percent(size, size) == 100
  {
    MulMonotone(size, 101, 100 * size / size);
    MulMonotone(size, 100 * size / size, 99);
    assert size * (100 * size / size) <= 100 * size;
  }

  /** Progress never goes down as more bytes are sent. */
  lemma PercentMonotone(a: nat, b: nat, size: nat)
    requires size > 0 && a <= b
    ensures Percent(a, size) <= Percent(b, size)
  {
    MulMonotone(100, a, b);
    DivMonotone(100 * a, 100 * b, size);
  }

  lemma {:induction false} MulMonotone(d: nat, x: nat, y: nat)
    ensures x <= y ==> d * x <= d * y
    decreases y
  {
    if x < y {
      MulMonotone(d, x, y - 1);
      assert d * y == d * (y - 1) + d;
    }
  }

  lemma DivMonotone(a: nat, b: nat, d: nat)
    requires d > 0 && a <= b
    ensures a / d <= b / d
  {
    MulMonotone(d, b / d + 1, a / d);
    assert d * (a / d) <= a;
    assert b < d * (b / d) + d == d * (b / d + 1);
  }

  lemma DivBelow(a: nat, d: nat, k: nat)
    requires d > 0 && a <= k * d
    ensures a / d <= k
  {
    MulMonotone(d, k + 1, a / d);
    assert d * (a / d) <= a;
    assert d * (k + 1) == d * k + d;
  }

  /** Every reported percentage lies in 0..100. */
  predicate PercentRange(p: seq<int>) {
    forall j :: 0 <= j < |p| ==> 0 <= p[j] <= 100
  }

  /** The reported percentages never go down. */
  predicate NonDecreasing(p: seq<int>) {
    forall j, k :: 0 <= j <= k < |p| ==> p[j] <= p[k]
  }

  lemma ProgressAppend(p: seq<int>, x: int)
    requires PercentRange(p) && NonDecreasing(p)
    requires 0 <= x <= 100
    requires p != [] ==> p[|p| - 1] <= x
    ensures PercentRange(p + [x]) && NonDecreasing(p + [x])
  {
  }

  /** Reporting the percentage after more bytes keeps the reports in range
      and never going down. */
  lemma ProgressNext(p: seq<int>, previous: nat, total: nat, size: nat)
    requires size > 0 && previous <= total <= size
    requires PercentRange(p) && NonDecreasing(p)
    requires p != [] ==> p[|p| - 1] == Percent(previous, size)
    ensures PercentRange(p + [Percent(total, size)]) && NonDecreasing(p + [Percent(total, size)])
  {
    PercentMonotone(previous, total, size);
    ProgressAppend(p, Percent(total, size));
  }

  /** The receiver's `min(100, int((total / size) * 100))`: the sender's
      percentage, capped at 100 once more than the announced size arrived. */
  function CappedPercent(total: nat, size: nat): (p: int)
    requires size > 0
    ensures 0 <= p <= 100
    ensures total <= size ==> p == Percent(total, size)
    ensures total >= size ==> p == 100
  {
    var p := Percent(total, size);
    assert total >= size ==> p >= 100 by {
      if total >= size {
        PercentFull(size);
        PercentMonotone(size, total, size);
      }
    }
    if p < 100 then p else 100
  }

  /** The capped percentage never goes down either. */
  lemma CappedPercentMonotone(a: nat, b: nat, size: nat)
    requires size > 0 && a <= b
    ensures CappedPercent(a, size) <= CappedPercent(b, size)
  {
    PercentMonotone(a, b, size);
  }
}
