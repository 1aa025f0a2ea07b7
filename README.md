# pyxgen-rs sprite generation, modelled in Dafny

pyxgen-rs draws small symmetric pixel-art sprites. A sprite starts as a random
4x8 map of empty (Background) and filled (Color) pixels. Two passes of a
cellular automaton smooth it: a cell's count is the number of its four
orthogonal neighbours that are Color, an empty cell with a count of at most
one fills, a filled cell with a count of two or three stays filled, and every
other cell empties. The map is then grown to 5x10 by an empty top row, bottom
row and right column. An in-place row-major sweep marks every empty cell with
a positive count as Outline. Finally every row is mirrored, giving a 10x10
map that is left-right symmetric.

The repository has two copies of this pipeline: `src/pixel_map.rs` on the
`PixelType` enum, and `src/bitmap.rs` on bytes (0 background, 1 colour,
2 outline). The byte copy's count tests the cell itself where the enum copy
tests the left neighbour (bitmap.rs:34). The model keeps that test as written.

Layout:

- `grids.dfy` (module `Grids`): row-major grids (`Grid<T>`, `Index`, `Cell`,
  `Row`, `Update`, `Tabulate`) and the neighbourhood of a cell. Its lemmas
  count a cell's live neighbours one direction at a time.
- `pixel_map.dfy` (module `PixelMaps`): the `PixelMap` class and the stages of
  `generate_sprite_map`. Each stage is a method proved equal to a
  specification function (`Seeded`, `Evolved`, `Grown`, `Outlined`,
  `Mirrored`, `Sprite`), followed by lemmas about those functions.
- `bitmap.dfy` (module `Bitmaps`): the same for `Bitmap` and
  `generate_sprite_bitmap`, with `uint8` cells.
- `encoding.dfy` (module `Encoding`): the byte coding of pixel types and the
  exact relation between the two pipelines, with two small grids on which
  they disagree.

The random generator is replaced by a sequence of draws, one per cell.
`choose` from a two-element slice picks element `draw % 2`, and
`gen_range(0, 2)` yields `draw % 2`. This makes every stage a deterministic
function of the draws. Indices are unbounded `nat` rather than `usize`.

A 2x2 all-Color map is a fixed point of evolution: every cell is a corner
with exactly two Color neighbours (`PixelMaps.TwoByTwoColorIsStable`).

## Model

| member | source | states |
|---|---|---|
| PixelMaps.Choose | src/pixel_map.rs:22-25 | picking from a slice gives a value exactly when the slice is non-empty, and the value is one of its elements |
| PixelMaps.PixelMap.constructor | src/pixel_map.rs:27-31 | the struct literal holds the given dimensions and cells |
| PixelMaps.PixelMap.Generate | src/pixel_map.rs:18-32 | the generated map is the seed picture for the draws, and no cell is Outline |
| PixelMaps.PixelMap.Get | src/pixel_map.rs:34-36 | reading (x, y) gives cell (x, y) of the row-major grid |
| PixelMaps.PixelMap.Set | src/pixel_map.rs:38-40 | writing through `get_mut(x, y)` changes cell (x, y) and no other cell |
| PixelMaps.CountNeighbors | src/pixel_map.rs:64-79 | the four tests compute the number of orthogonal in-range neighbours that are Color, at most 4 |
| PixelMaps.Evolve | src/pixel_map.rs:81-101 | the evolved map has every cell computed by the rule from the old map's cell and count |
| PixelMaps.Grow | src/pixel_map.rs:107-120 | the grown 5x10 cells are the specified padding of the 4x8 map |
| PixelMaps.AddOutline | src/pixel_map.rs:122-130 | the in-place sweep leaves the map computed by the outline rule from a snapshot |
| PixelMaps.Mirror | src/pixel_map.rs:132-138 | the mirrored cells are every row's reversal followed by the row |
| PixelMaps.GenerateSpriteMap | src/pixel_map.rs:103-144 | the sprite is the composition seed, evolve, evolve, grow, outline, mirror of the draws, and is 10x10 |
| PixelMaps.EvolvedCell | src/pixel_map.rs:91-97 | a cell is Color after evolution exactly when it was Background with count at most 1 or Color with count 2 or 3, otherwise Background |
| PixelMaps.EvolvedNoOutline | src/pixel_map.rs:91-97 | evolution never produces Outline |
| PixelMaps.AllBackgroundEvolvesToColor | src/pixel_map.rs:91-97 | an all-Background map evolves to an all-Color map |
| PixelMaps.TwoByTwoColorIsStable | src/pixel_map.rs:81-101 | the 2x2 all-Color map is a fixed point of evolution |
| PixelMaps.GrownLayout | src/pixel_map.rs:109-115 | the grown map has Background on its top row, bottom row and right column and holds the old map one row down |
| PixelMaps.OutlinedCell | src/pixel_map.rs:125-128 | a cell becomes Outline exactly when it is Background with a Color neighbour; Color cells are kept; only Background cells change |
| PixelMaps.OutlineKeepsCounts | src/pixel_map.rs:123-130 | outlining keeps every count, so the sweep's in-place writes do not affect the counts it reads later |
| PixelMaps.OutlinedIdempotent | src/pixel_map.rs:123-130 | outlining twice is outlining once |
| PixelMaps.MirroredSymmetric | src/pixel_map.rs:132-143 | the mirrored map is 10x10, cell (x, y) equals cell (9 - x, y), and its right half is the input |
| PixelMaps.SpriteSymmetric | src/pixel_map.rs:103-144 | every sprite is 100 cells and left-right symmetric |
| PixelMaps.SpriteFrameHasNoColor | src/pixel_map.rs:107-144 | no Color cell lies on the sprite's outer frame |
| Grids.Grid.Update | src/pixel_map.rs:38-40 | a write at (x, y) changes cell (x, y) to the new value and keeps every other cell |
| Grids.LiveNeighborsByDirection | src/pixel_map.rs:64-79 | the number of Color neighbours is the sum of the left, up, right and down tests |
| Grids.LiveNeighborsAgree | src/pixel_map.rs:64-79 | two grids that agree on which cells are live have the same live neighbours |
| Grids.LiveNeighborsBounds | src/pixel_map.rs:64-79 | a count is at most 4, at most 3 on an edge, at most 2 in a corner |
| Bitmaps.GenRange | src/bitmap.rs:14 | `gen_range(low, high)` lies in [low, high) |
| Bitmaps.Bitmap.constructor | src/bitmap.rs:16-20 | the struct literal holds the given dimensions and bytes |
| Bitmaps.Bitmap.Generate | src/bitmap.rs:10-21 | the generated bitmap is the seed picture for the draws and holds only 0 and 1 |
| Bitmaps.Bitmap.Get | src/bitmap.rs:23-25 | reading (x, y) gives byte (x, y) of the row-major grid |
| Bitmaps.Bitmap.Set | src/bitmap.rs:27-29 | writing through `get_mut(x, y)` changes byte (x, y) and no other byte |
| Bitmaps.CountByDirection | src/bitmap.rs:32-47 | the count is the test of the cell itself (when x > 0) plus the up, right and down tests |
| Bitmaps.CountBounds | src/bitmap.rs:32-47 | the count is at most 4, at most 3 on an edge, at most 2 in a corner |
| Bitmaps.CountNeighbors | src/bitmap.rs:32-47 | the four tests, the first on (x, y) itself, compute the specified count |
| Bitmaps.CountIncludesSelf | src/bitmap.rs:34 | a live byte away from the left edge counts itself: its count is one more than its live up, right and down neighbours |
| Bitmaps.CountDependsOnOnes | src/bitmap.rs:32-47 | two bitmaps with the same 1 bytes have the same counts |
| Bitmaps.Evolve | src/bitmap.rs:49-69 | the evolved bitmap has every byte computed by the rule from the old byte and count |
| Bitmaps.Grow | src/bitmap.rs:79-90 | the grown 5x10 bytes are the specified padding of the 4x8 bitmap |
| Bitmaps.AddOutline | src/bitmap.rs:92-100 | the in-place sweep leaves the bitmap computed by the outline rule from a snapshot |
| Bitmaps.Mirror | src/bitmap.rs:102-108 | the mirrored bytes are every row's reversal followed by the row |
| Bitmaps.GenerateSpriteBitmap | src/bitmap.rs:71-114 | the sprite bitmap is the composition of the stages on the draws, and is 10x10 |
| Bitmaps.EvolvedCell | src/bitmap.rs:59-65 | a byte is 1 after evolution exactly when it was 0 with count at most 1 or 1 with count 2 or 3, otherwise 0 |
| Bitmaps.EvolvedBinary | src/bitmap.rs:59-65 | evolution produces only 0 and 1 |
| Bitmaps.GrownLayout | src/bitmap.rs:79-85 | the grown bitmap has 0 on its top row, bottom row and right column and holds the old bitmap one row down |
| Bitmaps.OutlinedCell | src/bitmap.rs:95-98 | a byte becomes 2 exactly when it is 0 with a positive count; 1 bytes are kept; only 0 bytes change |
| Bitmaps.OutlineIgnoresLeftNeighbour | src/bitmap.rs:34 | a 0 byte is outlined exactly when its upper, right or lower neighbour is 1 |
| Bitmaps.OutlineKeepsCounts | src/bitmap.rs:93-100 | outlining keeps every count, so the sweep's in-place writes do not affect the counts it reads later |
| Bitmaps.OutlinedIdempotent | src/bitmap.rs:93-100 | outlining twice is outlining once |
| Bitmaps.MirroredSymmetric | src/bitmap.rs:102-113 | the mirrored bitmap is 10x10, byte (x, y) equals byte (9 - x, y), and its right half is the input |
| Bitmaps.SpriteBitmapSymmetric | src/bitmap.rs:71-114 | every sprite bitmap is 100 bytes and left-right symmetric |
| Bitmaps.SpriteBitmapCodes | src/bitmap.rs:73-74 | every byte of a sprite bitmap is 0, 1 or 2 |
| Bitmaps.SpriteBitmapFrameHasNoColor | src/bitmap.rs:79-114 | no 1 byte lies on the sprite bitmap's outer frame |
| Encoding.Encode | src/bitmap.rs:73-74 | a pixel type's code is at most 2, and it is 1 exactly for Color |
| Encoding.Decode | src/bitmap.rs:73-74 | a byte has a pixel type exactly when it is at most 2 |
| Encoding.DecodeEncode | src/bitmap.rs:73-74 | decoding inverts encoding in both directions |
| Encoding.EncodeGridCell | src/bitmap.rs:73-74 | coding a grid commutes with reading a cell |
| Encoding.SeededAgree | src/bitmap.rs:10-21 | both generators seed the coded picture from the same draws |
| Encoding.CountsRelated | src/bitmap.rs:34 | byte count plus the left-neighbour test equals pixel count plus the test of the cell itself |
| Encoding.CountsAgree | src/bitmap.rs:32-47 | the counts agree on the left edge and wherever a cell and its left neighbour are both Color or both not |
| Encoding.EvolvedAgree | src/bitmap.rs:49-69 | where the counts agree, one evolution step agrees under the coding |
| Encoding.OutlinedAgree | src/bitmap.rs:92-100 | the outline passes agree except on a Background cell with a Color left neighbour |
| Encoding.GrownAgree | src/bitmap.rs:79-90 | growing commutes with the coding |
| Encoding.MirroredAgree | src/bitmap.rs:102-113 | mirroring commutes with the coding |
| Encoding.OutlineMissesLeftNeighbour | src/bitmap.rs:34 | on the row [Color, Background] the pixel-map outline marks cell (1, 0) and the byte outline leaves it 0 |
| Encoding.EvolveMissesLeftNeighbour | src/bitmap.rs:34 | on the row [Color, Background, Color] the pixel-map evolution leaves cell (1, 0) empty and the byte evolution fills it |

## Left out

- `PixelMap::image` (src/pixel_map.rs:42-61): it only paints colours into an `image::ImageBuffer`, a foreign type; the model stops at the pixel map.
- `rand::thread_rng`, `choose` and `gen_range`: the generator is not modelled; its output is the `draws` input.
- src/filename.rs and src/main.rs: file naming and saving the image are I/O, and are not part of this model.
- PixelMaps.CountNeighbors, Bitmaps.CountNeighbors: the `u16` counter is unbounded `nat`; it never exceeds 4, so no wrap-around can occur.
- PixelMaps.PixelMap.Get, PixelMaps.PixelMap.Set, Bitmaps.Bitmap.Get, Bitmaps.Bitmap.Set: the source indexes the flat vector at `y * width + x` and panics only when that index is at least `|data|`; an `x >= width` with a smaller index reads or writes a cell of a later row without panicking. The model requires `x < width && y < height`, which every call in the source meets (the guards of `count_neighbors` and the loops over `0..width` and `0..height`), so that wrap-around is not modelled.
- `chunks(4)`/`chunks(5)` with a short last chunk cannot happen, since the lengths are exact multiples; the model takes whole rows only.
- Moves and clones of the Rust values are not modelled; each stage returns a fresh object or a fresh sequence.

## Findings

| source | as written | input that shows it | evidently intended | confidence | as-written member | corrected member |
|---|---|---|---|---|---|---|
| src/bitmap.rs:34 | the first test of `count_neighbors` reads `state.get(x, y)`, the cell itself, instead of the left neighbour | the row [1, 0]: cell (1, 0) has a live left neighbour, yet its count is 0, so it is not outlined; the row [1, 0, 1] brings cell (1, 0) to life with two live neighbours | `state.get(x - 1, y)`, as in src/pixel_map.rs:66 | high; not executed | Encoding.OutlineMissesLeftNeighbour | PixelMaps.CountNeighbors |
