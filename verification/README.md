# Tileable Worley noise — a Dafny model of the generator's integer core

The generator, `src/main.cpp`, produces 64 slices of tileable Worley
(cellular) noise and packs them into a 512 × 512 spritesheet. This project
models the deterministic integer logic at its centre and proves properties of
it:

- **`remap`**: integer linear rescaling with C++ truncating division
  (module `Remapping`, with `CppInt` for C++ `int` division).
- **`Point::distanceTo`**: the result, truncated into a `std::vector<int>`,
  is the integer square root of the squared distance (module `Geometry`).
- **Feature-point tiling**: the tile's points are copied into a 3×3 block
  of tiles, `y` outer and `x` inner (module `Tiling`).
- **The distance-field renderer**: for each pixel of the 192 × 192 canvas,
  the minimum truncated distance to any tiled point is taken by sorting and
  reading index 0 (module `Nearest`). That distance is clamped to 255,
  remapped from `[0, 255]` to `[0, 2048]`, clamped again and inverted
  (module `Shading`). The result is written as RGBA `(c, c, c, 255)` into a
  row-major byte buffer (module `Render`).
- **Slice partitioning** in `main`: `⌊N/W⌋` slices per worker, and the last
  worker takes the rest (module `Partition`).
- **The slice cache**: `worleyTiles` is a map from slice index to buffer.
  `generateWorleyNoiseSlices` stores into it, `getWorleyNoiseSlice` reads
  from it, and `main` reads the 64 slices back (module `SliceCache`).
- **The constants**: the source's compile-time constants are in module
  `Config`.

The random draws of each call to `generateTiledWorleyNoise` are an input, a
sequence of points per slice. The worker threads are a fold of their index
ranges, applied in an arbitrary order.

## Model

| member | source | states |
|---|---|---|
| CppInt.TruncDiv | src/main.cpp:40 | C++ `int` division rounds toward zero: the remainder is non-negative and smaller than the divisor's magnitude for a non-negative dividend, and non-positive and larger than minus that magnitude for a negative one |
| CppInt.TruncDivUnique | src/main.cpp:40 | those remainder bounds determine the quotient, so any value meeting them is the C++ quotient |
| CppInt.TruncDivOfNonNegative | src/main.cpp:40 | for a non-negative dividend and a positive divisor, C++ division agrees with Euclidean division |
| CppInt.TruncDivMonotone | src/main.cpp:40 | C++ division by a positive divisor never decreases as the dividend grows, including across zero |
| Geometry.Isqrt | src/main.cpp:34 | the root is the largest integer whose square is at most `n`: the value a correctly rounded `sqrt` of an integer gives once it is truncated to `int` |
| Geometry.IsqrtUnique | src/main.cpp:34 | only one natural number satisfies those bounds |
| Geometry.IsqrtMonotone | src/main.cpp:34 | the truncated root never decreases as its argument grows |
| Geometry.Distance | src/main.cpp:91 | the truncated distance `d` brackets the squared distance between `d²` and `(d+1)²`, and it is 0 exactly when the two points coincide |
| Geometry.DistanceSymmetric | src/main.cpp:32-35 | the distance from `p` to `q` equals the distance from `q` to `p` |
| Geometry.DistanceMonotone | src/main.cpp:32-35 | a point that is no farther along either axis is no farther away |
| Remapping.RemapAtMin | src/main.cpp:38-41 | `remap` sends `min` to `newMin` |
| Remapping.RemapAtMax | src/main.cpp:38-41 | `remap` sends `max` to `newMax` |
| Remapping.RemapMonotone | src/main.cpp:38-41 | on an increasing source range and a non-decreasing target range, `remap` never decreases as `value` grows |
| Remapping.RemapWithinRange | src/main.cpp:38-41 | values inside the source range land inside the target range |
| Shading.Shade | src/main.cpp:94-95 | the grey level is a byte; it is 255 exactly at distance 0 and 0 exactly from distance 32 on |
| Shading.ShadeMonotone | src/main.cpp:94-95 | a pixel farther from its nearest feature point is never brighter |
| Shading.ShadeNoOverflow | src/main.cpp:40 | on the colour path, the product inside `remap` fits in a 32-bit `int` |
| Tiling.ShiftAll | src/main.cpp:66-72 | one block of the tiling keeps the points' order and translates each point by the tile offset |
| Tiling.Tile | src/main.cpp:58-74 | the tiled set has exactly `9·P` points |
| Tiling.ReplicateAt | src/main.cpp:61-72 | block `k` of the replication holds point `i` shifted by the `k`-th offset, at index `k·P + i` |
| Tiling.TileAt | src/main.cpp:58-74 | index `(y·3 + x)·P + i` of the tiled set holds point `i` shifted by `(x·S, y·S)`, for every offset and point |
| Tiling.TileMember | src/main.cpp:61-72 | a point is in the tiled set exactly when it is a copy of a tile point at one of the nine offsets |
| Tiling.TiledInCanvas | src/main.cpp:50-74 | if the points lie in `[0, S-1]²`, every tiled point lies on the `3S × 3S` canvas |
| Nearest.Distances | src/main.cpp:88-92 | `distances` has one entry per tiled point, entry `j` being the truncated distance to point `j` |
| Nearest.Insert | src/main.cpp:93 | inserting into a sorted sequence keeps it sorted and adds exactly the one value |
| Nearest.Sort | src/main.cpp:93 | the result is ascending and a permutation of the input, the effect of `std::sort` |
| Nearest.SortedHeadIsMinimum | src/main.cpp:93-94 | the first element after sorting is the minimum found by a plain scan |
| Nearest.NearestDistance | src/main.cpp:87-94 | `distances[0]` after the sort is at most the distance to every tiled point and equals the distance to one of them |
| Nearest.NearestDistanceZero | src/main.cpp:87-94 | the nearest distance is 0 exactly when the pixel is one of the points |
| Render.PixelIndex | src/main.cpp:98 | pixel number `y·side + x` lies on the canvas, at column `x` and row `y` |
| Render.ColourAt | src/main.cpp:80-95 | the grey levels are numbered row-major, in the order of the pixel loops |
| Render.RgbaPixel | src/main.cpp:98-102 | a pixel's grey level goes into bytes `(y·side + x)·4 + {0, 1, 2}`, and byte `+3` is 255 |
| Render.Render | src/main.cpp:77-106 | the buffer has `side²·4` bytes, and every pixel `(x, y)` holds its own grey level in R, G and B with an opaque alpha |
| Render.PixelsFillBuffer | src/main.cpp:77-104 | any buffer of `side² · 4` bytes that meets the per-pixel contract of `Render` is fixed byte by byte: every byte is a channel of the pixel it belongs to, so the image holds nothing else |
| Render.GenerateTiledWorleyNoise | src/main.cpp:43-107 | a slice is a `192 × 192` RGBA canvas whose pixels are shaded by their nearest point of the 3×3 tiling of the drawn points |
| Render.WhiteExactlyOnFeaturePoints | src/main.cpp:85-95 | a pixel is white exactly when it sits on a copy of a feature point |
| Render.BlackExactlyFarFromFeaturePoints | src/main.cpp:85-95 | a pixel is black exactly when every tiled point is at truncated distance 32 or more |
| Render.CentreTileSeamless | src/main.cpp:207 | in the centre tile, which is the part cut out of each slice, the nearest distance over the 3×3 block equals the nearest distance over the infinite periodic tiling, so the tile wraps seamlessly |
| Partition.ThreadCountAsWrittenCanBeZero | src/main.cpp:187-188 | as written, the worker count is 0 when the hardware count is reported as 0 |
| Partition.ThreadCount | src/main.cpp:187 | the corrected worker count lies in `[1, N]` and agrees with the source whenever the hardware count is known |
| Partition.WorkerRangeShape | src/main.cpp:193-194 | each range lies inside `[0, N)`; the first `W-1` ranges hold `⌊N/W⌋` slices each, and the last one ends at `N` |
| Partition.WorkerRangesContiguous | src/main.cpp:193-194 | worker 0 starts at 0, and each worker starts where the previous one stops |
| Partition.Owner | src/main.cpp:191-196 | every slice in `[0, N)` has a worker whose range holds it |
| Partition.WorkerRangesDisjoint | src/main.cpp:191-196 | no slice is in two workers' ranges |
| Partition.WorkerRangesCover | src/main.cpp:191-196 | the union of the ranges is exactly `[0, N)` |
| SliceCache.GetAfterInsert | src/main.cpp:109-128 | after a store, a lookup at that index returns the stored buffer and a lookup anywhere else returns what it did before |
| SliceCache.InsertOverwrites | src/main.cpp:114 | a second store at an index replaces the first |
| SliceCache.GetEmpty | src/main.cpp:118-128 | a lookup is empty exactly when the index is absent or holds an empty buffer |
| SliceCache.SliceOfDrawn | src/main.cpp:114 | a slice rendered from a proper draw has the full `192·192·4` bytes, so it is never empty |
| SliceCache.RunWorker | src/main.cpp:109-116 | a worker adds exactly its range's indices, each holding the buffer rendered for it, and leaves every other index as it was |
| SliceCache.RunAll | src/main.cpp:190-203 | running the workers one after another fills exactly the indices their ranges cover, each with its own rendered buffer, and changes nothing else |
| SliceCache.ScheduleCovers | src/main.cpp:191-196 | whatever the order, the scheduled ranges cover exactly the slices `[0, N)` |
| SliceCache.BatchFillsCache | src/main.cpp:190-203 | once every worker has run, in any order, the cache holds exactly the indices `[0, N)`, each with its own rendered buffer |
| SliceCache.BatchOrderIrrelevant | src/main.cpp:197-203 | for the same per-slice draws, two schedules of the same workers leave the same cache contents |
| SliceCache.CollectFrom | src/main.cpp:209-216 | the read-back loop reports the first empty slice, with every earlier slice present, or else returns every slice in index order |
| SliceCache.CollectAfterBatch | src/main.cpp:209-216 | after the batch, if every rendered slice is non-empty, all `N` slices are read back in index order |
| SliceCache.BatchHasNoEmptySlice | src/main.cpp:187-216 | with the corrected worker count, under any schedule and any hardware count, the "slice is empty" error never fires, and slice `j` is read back exactly as rendered from its own draws |

## Left out

- The SFML preview and spritesheet windows are not modelled (lines 143-184 and 223-256). That includes texture and sprite creation, the event loops, and the placement of each slice on the sheet. These are calls into a graphics library.
- File I/O is not modelled: `stbi_write_bmp`, `saveToFile`, `loadFromFile` and the removal of the temporary files (lines 218-220, 235, 247, 258-262).
- `std::random_device` and `std::mt19937` (lines 46, 50-53) are not modelled. Each slice's 23 points are an input. `Render.Drawn` restricts them to `[0, 63]²`, the range of the uniform distribution.
- Threads, `std::mutex` and `join` (lines 25, 113, 120, 190-203) are not modelled as concurrency. Each worker is a fold over its range, and the workers run one after another in an arbitrary order. This is coarser than the source: the lock of line 113 is taken once per slice inside the loop of line 111, so stores of different workers interleave slice by slice. Every store writes its own index, so the interleaving does not change the final cache. In the source, `randomDevice()` is also called under that lock (lines 46, 113-114), so which points a slice gets depends on the schedule. The model takes the per-slice draws as an input, fixed before the workers run.
- Floating point in `Point::distanceTo` (line 34) is replaced by the integer square root of the squared distance. This assumes that truncating a correctly rounded `sqrt` of an integer below 2^52 gives its integer square root. On this canvas, squared distances stay below `2 · 192²`.
- The `--preview` argument parsing (lines 135-141) is not modelled.
- 32-bit integer width is not modelled: integers are unbounded. `Shading.ShadeNoOverflow` shows that the one product on the colour path fits in an `int`. Indices stay below `192 · 192 · 4`.
- The generator's handling of an empty set of feature points is not modelled. Line 94 reads `distances[0]`, so rendering requires a non-empty tiled set (`Render.Render` requires one).
- The remap range is not a parameter. `Remapping.Remap` works for any ranges, but the colour path uses the literals `(0, 2048)` of line 95, as the code does.
- `std::sort` is modelled by its result only: an ascending permutation, computed here by insertion sort.

## Findings

| source | as written | input that shows it | evidently intended | confidence | as-written member | corrected member |
|---|---|---|---|---|---|---|
| src/main.cpp:187-188 | `numThreads = std::min(std::thread::hardware_concurrency(), TEXTURE_SLICES)`, then `TEXTURE_SLICES / numThreads` | `hardware_concurrency()` returns 0, which the standard allows when the count is unknown: `numThreads` is 0 and the division by zero is undefined | at least one worker | not executed | Partition.ThreadCountAsWrittenCanBeZero | Partition.ThreadCount |
