# Spritesheet tile cache

A model of the `Spritesheet` type of the engo game engine's `core` package.
A spritesheet cuts one texture into a grid of equally sized cells and hands
out the region of a cell by its index. Cells are numbered row-major
("right-down"): index `i` is in column `i % columns` and row `i / columns`,
where `columns` is the number of whole cells across the texture. Regions are
computed lazily and memoised in a cache from index to region. Tilemaps and
animations use this cache.

The project has two modules:

- `SheetGeometry` (`geometry.dfy`) holds the arithmetic. The texture is
  reduced to its pixel width and height (`Texture`) and a region to a value
  record (`Region`: texture, origin, size). It defines the column, row and
  cell counts and `RegionFromSheet`. It proves that the row-major mapping can
  be inverted, that distinct cells have distinct origins, and that a cell lies
  inside the texture exactly when its index is below the cell count.
- `Spritesheets` (`spritesheet.dfy`) holds the cache. `CellStep` is one
  lookup on a cache value: a hit or a miss. `Populated` is the cache after
  looking up `0 .. n-1`, and `PopulatedShape` says what it holds. Lemmas
  prove that lookups are idempotent, that their order does not matter, and that a cache which agrees with `RegionFromSheet`
  keeps agreeing. The class `Spritesheet` is the mutable object. Its `cache`
  field is a map that `Cell` updates in place. `Cells` and `Drawables` fill a
  new array in a counting loop. Each method is proved against `CellStep` or
  `Populated`.

Cached entries may disagree with the cell size. `CellWidth` and `CellHeight`
are exported, and the source never invalidates the cache. So agreement with
`RegionFromSheet` is kept in a separate predicate, `Coherent()`, and is not
part of the object invariant. Every method preserves it, and a new sheet has
it.

## Model

| member | source | states |
|---|---|---|
| `Spritesheets.Spritesheet.FromTexture` | core/spritesheet.go:12-14 | the new sheet keeps the given texture, `CellWidth` and `CellHeight` unchanged, starts with an empty cache, and is coherent |
| `SheetGeometry.ColumnsFit` | core/spritesheet.go:60-63 | the column count is the largest `n` with `n * cellWidth <= texture width` |
| `SheetGeometry.RowsFit` | core/spritesheet.go:65-68 | the row count is the largest `n` with `n * cellHeight <= texture height` |
| `Spritesheets.Spritesheet.Width` | core/spritesheet.go:60-63 | the sheet's width in cells is the largest `n` with `n * CellWidth <= texture width` (the floor of the source's quotient) |
| `Spritesheets.Spritesheet.Height` | core/spritesheet.go:65-68 | the sheet's height in cells is the largest `n` with `n * CellHeight <= texture height` (the floor of the source's quotient) |
| `Spritesheets.Spritesheet.CellCount` | core/spritesheet.go:46-48 | the sheet's cell count is the grid's `CellCount` (columns times rows), and it is zero exactly when one cell does not fit across or down the texture |
| `SheetGeometry.CellInsideIff` | core/spritesheet.go:46-48 | an index is below `CellCount` (columns times rows) if and only if its region lies wholly inside the texture |
| `SheetGeometry.RegionFromSheet` | core/spritesheet.go:71-75 | the region belongs to the texture and has exactly the cell size; its x origin is on a column boundary and the column ends inside the texture; for a positive cell height its y origin is a non-negative multiple of the height |
| `SheetGeometry.OriginRoundTrip` | core/spritesheet.go:72-74 | decoding a region's origin as `(y / th) * columns + x / tw` gives back the index: `x / tw` is the column `index % columns`, which is below `columns`, and `y / th` is the row `index / columns` |
| `SheetGeometry.OriginsDistinct` | core/spritesheet.go:72-74 | two distinct indices get distinct origins |
| `SheetGeometry.Example64By32` | core/spritesheet.go:71-75 | a 64x32 texture with 16x16 cells has 8 cells, and cell 5 is at (16, 16) with size 16x16 |
| `SheetGeometry.Example100By50` | core/spritesheet.go:71-75 | a 100x50 texture with 10x10 cells has 50 cells, and cell 49 is at (90, 40) with size 10x10 |
| `Spritesheets.CellStep` | core/spritesheet.go:23-30 | after one lookup the cache is the old cache with `index` bound to the returned region, so at most that key is added and no other entry changes; the region is the stored one on a hit and `RegionFromSheet` of the index on a miss |
| `Spritesheets.CellStepHit` | core/spritesheet.go:24-26 | on a hit the lookup returns the stored region and leaves the cache unchanged |
| `Spritesheets.CellStepIdempotent` | core/spritesheet.go:23-30 | a second lookup of the same index returns the same region and leaves the cache as the first lookup did |
| `Spritesheets.CellStepsCommute` | core/spritesheet.go:23-30 | two lookups in either order leave the same cache, and an earlier lookup of another index does not change what a lookup returns |
| `Spritesheets.CellStepCoherent` | core/spritesheet.go:27-29 | on a cache that agrees with `RegionFromSheet`, a lookup returns `RegionFromSheet` of the index, and the cache still agrees afterwards |
| `Spritesheets.Spritesheet.Cell` | core/spritesheet.go:22-30 | the returned region and the new cache are exactly one `CellStep` on the old cache, and coherence is preserved; a miss needs a texture at least one cell wide, a hit needs nothing |
| `Spritesheets.Spritesheet.Drawable` | core/spritesheet.go:32-34 | the same contract as `Cell`: the drawable is the cell |
| `Spritesheets.PopulatedShape` | core/spritesheet.go:50-58 | after looking up `0 .. n-1`, the keys are the old keys plus `0 .. n-1`, old entries are kept, and each new entry is `RegionFromSheet` of its key |
| `Spritesheets.PopulatedThenStep` | core/spritesheet.go:53-55 | one more loop iteration extends the filled prefix by one index, and its lookup returns what it would have returned on the original cache |
| `Spritesheets.PopulatedLookups` | core/spritesheet.go:50-58 | after the loop, every index below `n` is cached and holds the region its lookup would have returned on the original cache |
| `Spritesheets.PopulatedCoherent` | core/spritesheet.go:50-58 | filling any prefix of indices keeps a coherent cache coherent |
| `Spritesheets.Spritesheet.Cells` | core/spritesheet.go:50-58 | returns a fresh array of length `CellCount()`; slot `i` holds what `Cell(i)` returns, which is now the cache entry for `i`; the new cache is `Populated(old cache, CellCount())`; on a coherent sheet slot `i` is `RegionFromSheet(i)` |
| `Spritesheets.Spritesheet.Drawables` | core/spritesheet.go:36-44 | the same contract as `Cells`: slot `i` holds what `Drawable(i)`, that is `Cell(i)`, returns on the cache the call starts from; the loop bound `CellCount()` is read again on each iteration and stays fixed |

## Left out

- `NewSpritesheetFromFile` (core/spritesheet.go:18-20) is not modelled. It looks the texture up in the engine's global asset registry, which is I/O and foreign state.
- The engine's texture and region types are not modelled. A texture is only its width and height in pixels, as naturals. A region is a value record with no texture coordinates.
- `Spritesheets.Spritesheet.Width`, `Spritesheets.Spritesheet.Height`, `SheetGeometry.ColumnsFit`, `SheetGeometry.RowsFit`: the source's `Width()` and `Height()` return the fractional `float32` quotient (6.4 for a 64-pixel texture with 10-pixel cells); the model returns its floor (6). `CellCount` (core/spritesheet.go:47) truncates that `float32` quotient. `regionFromSheet` (core/spritesheet.go:72) instead truncates the texture's pixel width and then uses integer division, which is exactly `Columns`. The model uses `Columns` in both places. So float rounding at line 47, which could make the two column counts differ, is not modelled. Neither is the non-finite quotient when a cell dimension is 0.
- `Spritesheets.Spritesheet.Cell`: the index is a natural number. Go's `%` and `/` truncate toward zero, and negative indices are not modelled.
- `Spritesheets.Spritesheet.Cell`: a negative `CellWidth` is not modelled. The source accepts one whose magnitude is at most the texture width without panicking: with width 64, `CellWidth = -16` and index 5, the column count is -4 and the region is at x = -16, y = -CellHeight. The model requires a positive cell width on a miss.
- `Spritesheets.Spritesheet.Cell`: the integer division by zero on a miss, when the texture is narrower than one cell, is excluded by a precondition and not modelled as a panic. A hit needs no such precondition.
- `Spritesheets.Spritesheet.Width`, `Spritesheets.Spritesheet.Height`, `Spritesheets.Spritesheet.CellCount`, `Spritesheets.Spritesheet.Cells`, `Spritesheets.Spritesheet.Drawables`: all require positive cell dimensions. Non-finite float counts for a zero size are not modelled. Negative cell sizes are not modelled either: in the source a 64x32 texture with both sizes -16 has `CellCount() == (-4) * (-2) == 8`, and `Cells` returns regions at x = 0, -16, -32, -48. A texture narrower than a cell gives zero cells and no lookup, as in the source.
- `SheetGeometry.RegionFromSheet`: the source converts the origin and size to `float32` (core/spritesheet.go:75), which rounds integers above 2^24. The model keeps them exact.
- Pointer identity of the returned regions is not modelled. A hit returns the same value, which stands in for the same pointer.
- Go's 64-bit `int` overflow in the origin and cell-count products is not modelled, because integers are unbounded here.
- Concurrent use of one sheet is not modelled. The source's cache is unsynchronised and single-threaded.
