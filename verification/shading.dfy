/** The colour of one pixel from its nearest-feature distance (lines 94-95):
    clamp to 255, stretch `[0, 255]` to `[0, 2048]`, clamp to 255 again and
    invert, so feature points are white and far pixels black. */
module Shading {
  import opened CppInt
  import opened Remapping
  import opened Config

  /** `sf::Uint8`, one channel of a pixel. */
  type Byte = x: int | 0 <= x < 256

  function Shade(d: nat): (c: Byte)
    ensures c == 255 <==> d == 0
    ensures c == 0 <==> d >= 32
  {
    var clamped := Min(d, 255);
    var remapped := Remap(clamped, 0, 255, REMAP_MIN, REMAP_MAX);
    TruncDivOfNonNegative(clamped * 2048, 255);
    255 - Min(remapped, 255)
  }

  /** Farther pixels are never brighter. */
  lemma ShadeMonotone(d1: nat, d2: nat)
    requires d1 <= d2
    ensures Shade(d1) >= Shade(d2)
  {
    RemapMonotone(Min(d1, 255), Min(d2, 255), 0, 255, REMAP_MIN, REMAP_MAX);
  }

  /** The intermediate product of `remap` on this path stays within a
      32-bit `int`, so the unbounded model agrees with the source. */
  lemma ShadeNoOverflow(d: nat)
    ensures IsInt32((Min(d, 255) - 0) * (REMAP_MAX - REMAP_MIN))
  {
  }
}
