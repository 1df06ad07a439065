# Wave Function Collapse: tile set and collapse engine in Dafny

This project models the core of a small Rust Wave Function Collapse generator:

- **Tile set** (`src/wfc.rs`). The source image is packed into one integer per
  pixel. One `TILE_WIDTH x TILE_HEIGHT` window is read at every pixel offset,
  wrapping around the image edges, and every window becomes a tile. Nothing is
  deduplicated. Each tile then gets four neighbour sets: `ib` is a
  `d`-neighbour of `ia` when the two tiles' pixels agree on the overlap for
  direction `d`.
- **Grid** (`src/grid.rs`). This is a toroidal `WIDTH x HEIGHT` grid of cells.
  Each cell holds its remaining tile ids and, once collapsed, its final tile. A
  step does three things:
  1. It picks the unresolved cell of least entropy, taking the lowest index on
     ties.
  2. It resolves that cell to one of its options.
  3. It propagates through a worklist (a double-ended queue): each neighbour's
     options are intersected with the union of what the cell's options allow
     in that direction.

Files:

- `wrappers.dfy` holds `Option`.
- `index_math.dfy` holds row-major offsets and their division and remainder
  facts.
- `tileset.dfy` holds pixels, tiles, extraction, the adjacency predicates and
  the `TileSet` class.
- `grid.dfy` holds cells, the toroidal geometry, the minimum-entropy choice and
  the `Grid` class with `CollapseStep` and propagation.

The code does some things step by step, and the model does the same with
methods and loop invariants:

- the nested loops of `TileSet::new`;
- the double loop of `generate_neighbors`;
- the early-return loops of the `adjacent_*` predicates;
- the in-place updates of `collapse_step`;
- the worklist loop of `propagate_options`.

Each of these methods is proved against a function or a predicate, and the
properties of the system are proved about those.

Generic constants become fields or parameters. The tile width and height are
`tileWidth`/`tileHeight` on `TileSet`. The grid size is `width`/`height` on
`Grid`. `BitSet` becomes `set<nat>`. The random choice in `collapse_step` is
an arbitrary element of the cell's options (`:|`).

Three predicates carry the propagation invariants:

- A **solution** (`Grid.Solution`) assigns a tile to every cell so that the
  tile in each cell's `d`-neighbour is among the `d`-neighbours of the cell's
  tile.
- A cell **supports** a neighbour (`Grid.Supports`) when the neighbour is
  resolved, or when the cell has no options, or when every option of the
  neighbour is allowed by the cell's options.
- **Arc consistency** (`Grid.ArcConsistentOutside`) means every cell outside a
  pending set supports all four of its neighbours.

## Model

| member | source | states |
|---|---|---|
| Tileset.Direction.Index | src/wfc.rs:12-18 | `direction as usize` is below 4, so it always selects one of the four neighbour sets |
| Tileset.ValuesIndex | src/wfc.rs:21 | `Direction::VALUES[k]` has discriminant `k`, so iterating `VALUES` fills neighbour sets 0, 1, 2, 3 in order |
| Tileset.PackPixel | src/wfc.rs:40-44 | a packed pixel is below 2^24; its lowest byte is red, the next is green, the next is blue (the alpha byte is zero) |
| Tileset.PackPixelInjective | src/wfc.rs:40-44 | two colours pack to the same value exactly when they are the same colour |
| Tileset.FromLeBytes | src/wfc.rs:43 | `u32::from_le_bytes`: the value fits in the bytes given, and remainder and division by 256 give back the first byte and the value of the remaining bytes |
| Tileset.PackImage | src/wfc.rs:38-45 | one packed value per image pixel, in the image's pixel order, each exactly `PackPixel` of that pixel (so below 2^24, with red, green and blue bytes in that order from the lowest) |
| Tileset.SamePattern | src/wfc.rs:239-246 | `PartialEq` for tiles holds exactly when the two pixel arrays have the same length and agree at every index |
| Tileset.NewTile | src/wfc.rs:146-152 | a new tile has the given pixels, frequency 1 and four empty neighbour sets |
| Tileset.WindowAt | src/wfc.rs:51-59 | pixel `dx*TILE_HEIGHT+dy` of the window at offset `(x, y)` is image pixel `((x+dx) % width, (y+dy) % height)`: toroidal wrap |
| Tileset.ReadIsTransposed | src/wfc.rs:54-57 | for square tiles, reading a window row-major at `(xa, ya)` gives the image pixel at offset `(ya, xa)`: windows are stored column-major and read row-major |
| Tileset.ExtractWindow | src/wfc.rs:51-59 | the pixel loop produces exactly the window `Window` at offset `(x, y)`: `TILE_WIDTH*TILE_HEIGHT` pixels, column by column, each the wrapped image pixel given by `WindowAt` |
| Tileset.ExtractTiles | src/wfc.rs:48-76 | extraction yields exactly `width*height` tiles, nothing deduplicated, each with `TILE_WIDTH*TILE_HEIGHT` pixels, frequency 1 and empty neighbour sets |
| Tileset.ExtractedAt | src/wfc.rs:49-74 | the tile at index `x*height + y` is the window at offset `(x, y)` |
| Tileset.AdjacentNorth | src/wfc.rs:154-167 | the early-return loop answers true exactly when rows `0..TILE_HEIGHT-1` of the first tile equal rows `1..TILE_HEIGHT` of the second; it is callable exactly where `HEIGHT - 1` cannot underflow, including the empty zero-width tile |
| Tileset.AdjacentSouth | src/wfc.rs:169-182 | true exactly when rows `1..TILE_HEIGHT` of the first tile equal rows `0..TILE_HEIGHT-1` of the second |
| Tileset.AdjacentEast | src/wfc.rs:184-197 | (`ajacetn_east`) true exactly when columns `1..TILE_WIDTH` of the first tile equal columns `0..TILE_WIDTH-1` of the second |
| Tileset.AdjacentWest | src/wfc.rs:199-212 | true exactly when columns `0..TILE_WIDTH-1` of the first tile equal columns `1..TILE_WIDTH` of the second |
| Tileset.CmpAdjacent | src/wfc.rs:214-221 | dispatches to the predicate of the given direction and answers exactly `Compatible` |
| Tileset.NorthSouthDual | src/wfc.rs:154-182 | `a` fits north of `b` exactly when `b` fits south of `a` |
| Tileset.EastWestDual | src/wfc.rs:184-212 | `a` fits east of `b` exactly when `b` fits west of `a` |
| Tileset.CompatibleDual | src/wfc.rs:154-221 | for every direction, `a` is compatible with `b` in `d` exactly when `b` is compatible with `a` in the opposite direction |
| Tileset.PairStep | src/wfc.rs:88-92 | one pass of the direction loop adds `ib` to neighbour set `d` of the borrowed tile exactly when the tiles are compatible in `d`, and touches nothing else |
| Tileset.TileSet.GenerateNeighbors | src/wfc.rs:82-95 | each neighbour set `d` of tile `ia` gains exactly the tiles `ib` compatible with `ia` in `d`; pixels and frequencies are untouched |
| Tileset.TileSet.constructor | src/wfc.rs:35-80 | a new tile set holds `width*height` tiles carrying the extracted pixels with frequency 1, and every neighbour set is exactly the compatible tiles |
| Tileset.NeighborSymmetry | src/wfc.rs:82-95 | after generation, `ib` is a `d`-neighbour of `ia` exactly when `ia` is an opposite-`d` neighbour of `ib` |
| Tileset.NeighborsInRange | src/wfc.rs:82-95 | every neighbour id is below the number of tiles |
| Tileset.TileSet.Len | src/wfc.rs:97-99 | `len()` bounds every neighbour id, so the ids are valid cell options |
| Tileset.DuplicatesIndistinguishable | src/wfc.rs:239-246 | two tiles equal under `PartialEq` (same pixels) have the same neighbour sets and appear in exactly the same neighbour sets |
| Grid.Cell.Entropy | src/grid.rs:211-214 | the entropy is zero exactly when no option is left, and 1 for a resolved cell |
| Grid.GetNeighbor | src/grid.rs:133-145 | the neighbour index is below `WIDTH*HEIGHT`; its column and row are the cell's, stepped and wrapped on each axis on its own |
| Grid.StepBack | src/grid.rs:133-145 | stepping in a direction and then in the opposite direction returns to the original cell |
| Grid.NeighborIsSelf | src/grid.rs:98-100 | a cell is its own neighbour exactly on a one-wide (east/west) or one-high (north/south) grid, where `get_many_mut(...).unwrap()` panics |
| Grid.MinEntropyCell | src/grid.rs:151-155 | the ascending `min_by_key` fold returns `None` exactly when no index is unresolved; otherwise an unresolved index of least entropy that is strictly below every earlier unresolved index |
| Grid.Grid.constructor | src/grid.rs:46-58 | every cell is `Cell::new` of all tile ids `0..tileset.len()`, and `uncollapsed` is all indices `0..WIDTH*HEIGHT` |
| Grid.Grid.Entropy | src/grid.rs:147-149 | a cell's entropy is at most the number of tiles, and 1 once the cell is resolved |
| Grid.Grid.MinCell | src/grid.rs:151-155 | `None` exactly when `uncollapsed` is empty; otherwise an unresolved cell whose entropy is at most that of every unresolved cell, the lowest such index on ties, so the `DBG` branch at grid.rs:72-74 is dead |
| Grid.ResolveCell | src/grid.rs:85-88 | resolving a cell to one of its options keeps every cell well formed, removes exactly that cell from the unresolved set, grows no option set, leaves resolved cells alone and keeps every solution that picks that option there |
| Grid.Grid.CollapseStep | src/grid.rs:67-90 | nothing changes when all cells are resolved or the chosen cell has no options; otherwise the chosen cell becomes `Some(o)`/`{o}` for an old option `o` and is the only index to leave `uncollapsed`, and after propagation it supports all four neighbours; options never grow, resolved cells never change, every solution with that tile at that cell survives, and arc consistency is preserved |
| Grid.Grid.PropagateOptions | src/grid.rs:92-131 | with the corrected enqueue test: the grid stays valid, options only shrink, resolved cells and `uncollapsed` do not change, no solution is lost, a resolved start cell ends up supporting its four neighbours, and arc consistency away from the start cell becomes full arc consistency |
| Grid.Grid.PropagateOptionsAsWritten | src/grid.rs:92-131 | the code as written keeps the grid valid, only shrinks options, never touches resolved cells or `uncollapsed`, loses no solution, terminates with a duplicate-free worklist, and leaves a resolved start cell supporting its four neighbours |
| Grid.Grid.NarrowNeighbors | src/grid.rs:97-129 | the direction loop for one popped cell, under either enqueue test: cells stay well formed, only lose options and keep every solution; a neighbour is pushed only when absent and only when it lost an option, so the option total drops or the worklist is as popped; with the corrected test and arc consistency away from the worklist, that consistency is kept and the cell ends up supporting its four neighbours |
| Grid.PopFront | src/grid.rs:95 | `pop_front` on a duplicate-free worklist of cell indices leaves a duplicate-free worklist without the popped cell |
| Grid.EnqueueAsWritten | src/grid.rs:121 | `is_proper_subset` holds exactly when the intersection removes an option and equals the whole union: every enqueue shrinks the neighbour, but not every shrink enqueues |
| Grid.AsWrittenMissesNarrowing | src/grid.rs:121-128 | options `{0, 1}` with union `{0, 2}` are narrowed to `{0}` but the neighbour is not enqueued |
| Grid.TotalOptionsShrink | src/grid.rs:127-128 | narrowing one cell never raises the total option count, and lowers it when an option is removed (the termination measure) |
| Grid.AllowedUnion | src/grid.rs:106-116 | the fold's result contains the `d`-neighbour set of every option of the cell, and every tile in it comes from one of those sets |
| Grid.AllowedMono | src/grid.rs:106-116 | a cell with fewer options allows no more tiles in any direction |
| Grid.NarrowTowardEffect | src/grid.rs:127-128 | the intersection changes only the neighbour, which keeps its final tile and only options the cell allows; afterwards the cell supports the neighbour, and repeating the update changes nothing |
| Grid.NarrowStep | src/grid.rs:106-128 | one narrowing keeps the grid well formed and keeps every solution; it lowers the option total exactly when the neighbour loses an option, and otherwise changes nothing |
| Grid.NarrowKeepsSolutions | src/grid.rs:106-128 | a tile that some solution puts at the neighbour is in the union of what the cell's options allow, so it survives the intersection |
| Grid.NarrowStepArc | src/grid.rs:106-128 | if the narrowed neighbour is queued whenever it lost an option, arc consistency away from the worklist is kept and the cell now supports that neighbour |
| Grid.Upto | src/grid.rs:52-56 | `(0..n).collect()` holds exactly the ids below `n`, `n` of them |

## Left out

- `src/main.rs` is not part of this model: the SDL window, the event loop, image file I/O, fonts and frame timing.
- All drawing code is left out: `draw`, `draw_neighbors`, `write_text`, `Tile::draw` and `get_color`. It only issues canvas calls.
- The `println!` debug output is left out. This includes the `neighbor_ix == 13` branch, which has no effect on state.
- The random number generator is left out. `choose` picks an arbitrary option of the cell, so every property holds for every possible draw.
- Frequency weighting and deduplication are left out. The code has them commented out and never reads `frequency`; the model keeps `frequency == 1` on every tile.
- The `bittyset` and `image` crates are not part of this model. `BitSet` is a mathematical set, and an image is a width, a height and a row-major sequence of RGB bytes.
- Tileset.TileSet.constructor: requires `1 <= TILE_WIDTH < width` and `1 <= TILE_HEIGHT < height`. Outside that range the code panics: the `assert!` at src/wfc.rs:46-47 fails or its `usize` subtraction underflows, and `TILE_HEIGHT - 1` or `TILE_WIDTH - 1` underflows in the adjacency loops. The model does not follow the release-build wrap-around that lets a too-small image past the `assert!`.
- Grid.Grid.CollapseStep: requires a grid at least 2 wide and 2 high whenever propagation would run. On a narrower grid a cell is its own neighbour and `get_many_mut(...).unwrap()` panics (see `Grid.NeighborIsSelf`).
- Grid.Grid.CollapseStep: calls the corrected `PropagateOptions`, not the as-written one (see Findings). The as-written propagation is modelled as `PropagateOptionsAsWritten`.
- Grid.GetNeighbor: does not model `as isize` overflow. Indices are unbounded, and the source's conversion is exact for any grid that fits in memory.
- The "contradiction" result some designs report is not modelled, because the code has none. An empty option set only makes `propagate_options` `break` out of the direction loop of the cell being processed. A contradiction in a neighbour is neither reported nor stops propagation; nothing is surfaced to the caller.
- An image no larger than the tile is not reported as a construction error, because the code panics (see the first constructor line above).
- Grid.Grid.CollapseStep: does not prove that a freshly constructed grid is arc consistent, so `old(ArcConsistent()) ==> ArcConsistent()` constrains a run from `Grid::new` only if that holds for the tile set; what every step does guarantee is that the resolved cell supports its four neighbours.
- Grid.Grid.MinCell: models the `BitSet` ascending iteration order as a fold over indices `0..WIDTH*HEIGHT`. This is equivalent, but the bitset's internals are not modelled.

## Findings

| source | as written | input that shows it | evidently intended | confidence | as-written member | corrected member |
|---|---|---|---|---|---|---|
| src/grid.rs:121-126 | a neighbour is enqueued only when the union of what the cell allows is a proper subset of the neighbour's options | neighbour options `{0, 1}`, union `{0, 2}`: the options become `{0}`, but `{0, 2}` is not a subset of `{0, 1}`, so the neighbour is not queued and its own neighbours are never narrowed against the smaller set | enqueue the neighbour whenever the intersection removes an option, so that propagation ends arc consistent | not executed; the counterexample is proved, the effect on a full run is inferred | Grid.AsWrittenMissesNarrowing | Grid.Grid.PropagateOptions |
