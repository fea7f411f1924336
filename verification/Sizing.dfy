/** How many CPUs a request is for: percentages and the default size. */
module Sizing {
  const MAX_ALLOCATION_PERCENTAGE := 80
  const LARGE_SYSTEM_THRESHOLD := 100
  const RESERVED_CORES_LARGE_SYSTEM := 16

  /** `int(total * 80 / 100)` on small systems, all but sixteen on large ones. */
  function DefaultSize(total: nat): (size: nat)
    ensures size <= total
    ensures size == 0 <==> total <= 1
  {
    if total > LARGE_SYSTEM_THRESHOLD then total - RESERVED_CORES_LARGE_SYSTEM
    else total * MAX_ALLOCATION_PERCENTAGE / 100
  }

  /** `math.ceil(total * percent / 100)`. */
  function PercentSize(total: nat, percent: nat): (size: nat)
    ensures 100 * size >= total * percent
    ensures size > 0 ==> 100 * (size - 1) < total * percent
  {
    (total * percent + 99) / 100
  }

  lemma DefaultSizeIsFourFifths(total: nat)
    requires total <= LARGE_SYSTEM_THRESHOLD
    ensures DefaultSize(total) == 4 * total / 5
  {
    assert total * 80 / 100 == 4 * total / 5;
  }

  /** A larger pool never gives a smaller default, also across the threshold. */
  lemma DefaultSizeMonotone(small: nat, large: nat)
    requires small <= large
    ensures DefaultSize(small) <= DefaultSize(large)
  {
  }

  /** A positive percentage of a non-empty pool is at least one CPU and at most the pool,
      so it never falls back to the default size that a count of zero asks for. */
  lemma PercentSizeBounds(total: nat, percent: nat)
    requires total > 0 && 1 <= percent <= 100
    ensures 1 <= PercentSize(total, percent) <= total
  {
    assert total * percent >= 1;
    assert total * percent <= total * 100;
  }

  lemma PercentSizeMonotone(total: nat, low: nat, high: nat)
    requires low <= high
    ensures PercentSize(total, low) <= PercentSize(total, high)
  {
    hide PercentSize;
    assert total * high == total * low + total * (high - low);
    assert total * (high - low) >= 0;
  }

  /** The default in numbers: the whole part of four fifths up to a hundred, sixteen fewer above. */
  lemma DefaultSizeExact(total: nat)
    ensures total <= 100 ==> 5 * DefaultSize(total) <= 4 * total < 5 * DefaultSize(total) + 5
    ensures total > 100 ==> DefaultSize(total) == total - 16
  {
  }
}
