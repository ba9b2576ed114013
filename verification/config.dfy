/** The compile-time constants of `src/main.cpp` (lines 16-22 and 95). */
module Config {
  const SPRITESHEET_SIZE: nat := 512
  const TEXTURE_SLICES: nat := 64
  /** `sqrt(TEXTURE_SLICES)`: slices per spritesheet row. The source takes a
      floating-point square root of 64; its value, 8, is written here. */
  const TEXTURE_SLICE_ROW: nat := 8
  /** The side S of one tile. */
  const TEXTURE_SIZE: nat := SPRITESHEET_SIZE / TEXTURE_SLICE_ROW
  /** The side of the 3×3 canvas that is rendered. */
  const TILED_TEXTURE_SIZE: nat := TEXTURE_SIZE * 3
  /** Feature points drawn per tile. */
  const WORLEY_POINTS: nat := 23

  /** The distance range `[0, 255]` is stretched to `[REMAP_MIN, REMAP_MAX]`
      before it is clamped to a byte. */
  const REMAP_MIN: int := 0
  const REMAP_MAX: int := 2048
}
