/** `remap` (lines 38-41): integer linear rescaling of `value` from
    `[min, max]` to `[newMin, newMax]`, with C++ truncating division. */
module Remapping {
  import opened CppInt

  function Remap(value: int, min: int, max: int, newMin: int, newMax: int): int
    requires max != min
  {
    newMin + TruncDiv((value - min) * (newMax - newMin), max - min)
  }

  /** The lower end of the source range maps to the lower end of the target. */
  lemma RemapAtMin(min: int, max: int, newMin: int, newMax: int)
    requires max != min
    ensures Remap(min, min, max, newMin, newMax) == newMin
  {
    TruncDivUnique(0, max - min, 0);
  }

  /** The upper end of the source range maps to the upper end of the target. */
  lemma RemapAtMax(min: int, max: int, newMin: int, newMax: int)
    requires max != min
    ensures Remap(max, min, max, newMin, newMax) == newMax
  {
    var a := (max - min) * (newMax - newMin);
    assert a - (newMax - newMin) * (max - min) == 0;
    TruncDivUnique(a, max - min, newMax - newMin);
  }

  /** On an increasing source range and a non-decreasing target range,
      `remap` never decreases as `value` grows. */
  lemma RemapMonotone(v1: int, v2: int, min: int, max: int, newMin: int, newMax: int)
    requires v1 <= v2 && min < max && newMin <= newMax
    ensures Remap(v1, min, max, newMin, newMax) <= Remap(v2, min, max, newMin, newMax)
  {
    var k := newMax - newMin;
    MulNonNegative(v2 - v1, k);
    assert (v2 - min) * k - (v1 - min) * k == (v2 - v1) * k;
    TruncDivMonotone((v1 - min) * k, (v2 - min) * k, max - min);
  }

  /** Values inside the source range land inside the target range. */
  lemma RemapWithinRange(value: int, min: int, max: int, newMin: int, newMax: int)
    requires min <= value <= max && min < max && newMin <= newMax
    ensures newMin <= Remap(value, min, max, newMin, newMax) <= newMax
  {
    RemapAtMin(min, max, newMin, newMax);
    RemapAtMax(min, max, newMin, newMax);
    RemapMonotone(min, value, min, max, newMin, newMax);
    RemapMonotone(value, max, min, max, newMin, newMax);
  }
}
