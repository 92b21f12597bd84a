# Sapper board model

A Dafny model of the board logic of a small minesweeper-style game, `src/sapper.js`.
It has two classes.

`Cell` is one square of the board. It has:
- a `(row, column)` position;
- a pixel rectangle derived from that position and the cell size;
- two queries: inclusive point containment and exact position match;
- a list of eight neighbour slots, which the grid fills in.

`Grid` holds a `rows × columns` lattice of cells. `init` builds it in two passes:
- Pass 1 creates the cells row by row. Each cell gets its candidate neighbour index pairs, in the order NW, N, NE, W, E, SW, S, SE.
- Pass 2 replaces every pair with the cell at that position.

A grid answers two kinds of lookup, by pixel and by position. Both are the same linear scan: the first cell in row-major order that answers the query, or nothing. `selectCell` turns a pointer event into grid-local pixel coordinates and looks the cell up.

Modules:
- `Cells` (`cell.dfy`) holds the cell class and the values it uses:
  - `Position`;
  - `Box`, the rectangle;
  - `Slot`, a neighbour slot that is absent, holds a candidate pair, or holds a linked cell.
- `Grids` (`grid.dfy`) holds:
  - the grid class with its lookups and the two-pass `Init`;
  - the scan `Filter`;
  - the reference definitions the scans are proved against. `Band` and `CellUnder` give the cell under a pixel by direct arithmetic. `Resolve` and `ResolveAll` give a slot resolved by direct indexing.
- `GridFacts` (`grid_facts.dfy`) holds the lemmas about lookups, neighbour counts, neighbour resolution and symmetry.

A cell's position, size and rectangle are set once by its constructor and never changed, so the model makes them `const`. The `neighbors` slot list is the only field the grid reassigns. The grid's `cells` is a `seq<seq<Cell>>` field that pass 1 extends one row at a time, as the source's `push` does.

## Model

| member | source | states |
|---|---|---|
| Cells.Cell.constructor | src/sapper.js:2-17 | The new cell is at `(row, column)` with the given size. Its rectangle is `x1 = column*size`, `y1 = row*size`, `x2 = x1 + size`, `y2 = y1 + size`. Its neighbours start absent. |
| Cells.BoxAt | src/sapper.js:8-13 | The rectangle is `size` wide and `size` high. Its top-left corner is at `(column*size, row*size)`. |
| Cells.Cell.CheckCoordinates | src/sapper.js:19-26 | True exactly when `column*size <= x <= column*size + size` and `row*size <= y <= row*size + size`. All four edges are inclusive. |
| Cells.Cell.CheckPosition | src/sapper.js:28-30 | True exactly when both row and column are equal to the cell's own. |
| Grids.Grid.constructor | src/sapper.js:40-46 | The new grid has no cells and the given rows and columns. The cell size defaults to 50. |
| Grids.PointerEvent.LocalX | src/sapper.js:132 | The local x plus the element's left offset gives back the client x. |
| Grids.PointerEvent.LocalY | src/sapper.js:133 | The local y plus the element's top offset gives back the client y. |
| Grids.Check | src/sapper.js:81 | The dispatch by query kind. By coordinates it holds exactly when the pixel lies in the cell's rectangle, edges included. By position it holds exactly when the cell sits at that pair. |
| Grids.Filter | src/sapper.js:79-92 | Array `filter`: the result is no longer than the input and keeps only accepted elements. It is empty exactly when no element is accepted. Otherwise its head is the first accepted element. |
| Grids.Grid.GetCellByParams | src/sapper.js:78-95 | Returns nothing exactly when no cell answers the query. Otherwise returns the first cell that does in row-major order: no earlier row holds a match, and no earlier column in its row does. |
| Grids.Band | src/sapper.js:19-26 | For a pixel coordinate in `[0, n*size]`, gives an index `b` in `[0, n)` whose band `[b*size, b*size + size]` holds it. |
| Grids.BandIsFirst | src/sapper.js:19-26 | Every band below `Band` ends before the coordinate. So `Band` is the lowest band that holds it. |
| Grids.Grid.GetCellByCoords | src/sapper.js:70-72 | On a filled lattice with a positive cell size, the lookup by pixel is the cell at the pixel's row and column bands when the pixel lies in `[0, columns*size] × [0, rows*size]`. Otherwise it is nothing. |
| Grids.ScanOnBoard | src/sapper.js:78-95 | The scan by coordinates finds an on-board pixel in the cell at its lowest row band and lowest column band. |
| Grids.FirstMatchIsBands | src/sapper.js:78-95 | The first cell in row-major order that holds an on-board pixel sits at the pixel's bands. On a shared edge or corner, the lower row wins, then the lower column. |
| Grids.ScanOffBoard | src/sapper.js:78-95 | The scan by coordinates finds nothing for a pixel outside the board, or for any pixel on an empty board. |
| Grids.Grid.SelectCell | src/sapper.js:120-135 | On a filled lattice with a positive cell size, `selectCell` finds the cell under the client point minus the element's offset. |
| Grids.Grid.GetCellByPosition | src/sapper.js:74-76 | On a filled lattice, the lookup by `(row, column)` is `cells[row][column]` when the position is on the board, and nothing otherwise. |
| Grids.Grid.DefineCellNeighbors | src/sapper.js:97-110 | Always eight slots. For an on-board cell, slot `i` is the candidate `(row + dr_i, column + dc_i)` exactly when that position is on the board, and absent otherwise. The offsets go NW, N, NE, W, E, SW, S, SE. |
| Grids.Grid.ConnectSlot | src/sapper.js:113-115 | On a filled lattice, one slot becomes the cell its candidate pair names, or absent when the pair is off the board or the slot holds no pair. |
| Grids.Grid.ConnectSlots | src/sapper.js:112-118 | Keeps the length. On a filled lattice, each slot becomes the cell its candidate pair names, or absent when the slot names no on-board cell. |
| Grids.Grid.ConnectNeighbors | src/sapper.js:112-118 | Keeps the cell's slot count. On a filled lattice, each candidate pair of the cell becomes the lattice cell at that position. |
| Grids.Grid.Init | src/sapper.js:48-68 | Starts from an empty grid and returns the grid itself. Afterwards the cells form exactly `rows` rows of `columns` fresh cells, with `cells[r][c]` at position `(r, c)` and of the grid's cell size. Every cell's slots hold the resolution of its own candidates. |
| Grids.Grid.CreateCells | src/sapper.js:49-57 | Pass 1. The cells form the full lattice of fresh cells, and each cell holds the candidates for its own position. |
| Grids.Grid.CreateRow | src/sapper.js:50-55 | One row of pass 1. Gives `columns` fresh cells at `(row, 0)`, `(row, 1)` and so on, each holding its candidates. |
| Grids.Grid.ConnectCells | src/sapper.js:59-65 | Pass 2 over a lattice whose cells hold their candidates. Afterwards every slot is resolved against the lattice. |
| Grids.Grid.ConnectRow | src/sapper.js:60-64 | One row of pass 2. Each cell of the row gets its old slots resolved. Cells of other rows keep their slots. |
| GridFacts.TwoByTwoLookups | src/sapper.js:70-95 | On a 2 × 2 board of 10-pixel cells: `(5,5)` finds cell `(0,0)` and `(15,15)` finds `(1,1)`. The shared corner `(10,10)` finds `(0,0)` and the far corner `(20,20)` finds `(1,1)`. `(-1,-1)` and `(1000,1000)` find nothing. |
| GridFacts.CellsDistinct | src/sapper.js:49-57 | On a filled lattice, two indices hold the same cell exactly when they are the same index. |
| GridFacts.RowPrefixSize | src/sapper.js:50-55 | The first `m` cells of a lattice row are `m` distinct cells, all in that row. |
| GridFacts.FirstRowsSplit | src/sapper.js:49-57 | The cells of the first `k` rows are those of the first `k - 1` rows together with the whole of row `k - 1`. |
| GridFacts.FirstRowsBelow | src/sapper.js:49-57 | Every cell of the first `k` rows of a lattice sits in a row below `k`. |
| GridFacts.RowsApartSize | src/sapper.js:49-57 | Cells of earlier rows and cells of the next row are apart, so the count of their union is the sum of their counts. |
| GridFacts.FirstRowsSize | src/sapper.js:49-57 | The first `k` rows of a lattice hold `k * columns` distinct cells. |
| GridFacts.CellCount | src/sapper.js:49-57 | A filled lattice holds exactly `rows * columns` distinct cells. |
| GridFacts.CandidateSymmetry | src/sapper.js:97-110 | A present candidate of an on-board cell names an on-board position one king move away. That position's mirrored slot `7 - i` names the cell back. |
| GridFacts.NeighborCount | src/sapper.js:97-110 | The number of present candidates is the number of rows among `r-1, r, r+1` on the board, times the number of such columns, minus one. |
| GridFacts.CornerEdgeInteriorCounts | src/sapper.js:97-110 | On a board at least 2 × 2, corners have 3 present candidates, other border cells 5 and interior cells 8. |
| GridFacts.ThreeByThreeNeighbors | src/sapper.js:97-110 | On a 3 × 3 board, the corner `(0,0)` has exactly the candidates `(0,1)`, `(1,0)`, `(1,1)`, in that order. The centre has all eight. |
| GridFacts.ResolveKeepsCount | src/sapper.js:112-118 | Resolving slots whose candidates are all on the lattice, none of which already holds a cell, keeps the number of present slots. |
| GridFacts.LinksFollowCandidates | src/sapper.js:59-65 | After `init`, slot `i` of a cell is absent exactly when its candidate was absent. It holds a cell exactly when its candidate was present. That cell is the lattice cell at the candidate position. |
| GridFacts.LinkedCount | src/sapper.js:59-65 | After `init`, each cell links as many neighbours as it had candidates: the 3/5/8 count. |
| GridFacts.NeighborSymmetry | src/sapper.js:59-65 | After `init`, if cell B fills slot `i` of cell A, then B is one king move from A and A fills slot `7 - i` of B. |

## Left out

- `Cell.draw`, `Grid.draw`, the `context` field and the top-level script that builds a 10 × 10 board and draws it. These are canvas drawing, DOM insertion and click-listener registration, with no board logic.
- The DOM event object. `selectCell` is modelled on four integers: client x and y and the element's left and top offsets.
- Floating-point coordinates: pixels, offsets and sizes are `int`. The logic never relies on fractions.
- The method name built from a string, `` `check${param}` ``. It is modelled as the two-way choice `Param`. Any other name would throw in the source.
- Negative row or column counts. `rows` and `columns` are `nat`. In the source such a count only leaves the loops empty.
- Grids.Grid.Init: requires an empty grid. A second call in the source appends a second copy of every row.
- Grids.Grid.ConnectNeighbors: requires a cell whose slots were set. In the source, `null` neighbours raise a TypeError.
- Grids.Grid.ConnectSlots: a slot that already holds a cell becomes absent. In the source such a slot is looked up as `(undefined, undefined)`, which matches no cell. `init` never produces one.
- Grids.Grid.Init: the two passes are split into `CreateCells`/`CreateRow` and `ConnectCells`/`ConnectRow`. Together they perform the same loops in the same order.
- Grids.Grid.DefineCellNeighbors: the slot-by-slot characterization is stated only for on-board positions. Those are the only positions `init` uses.
- Grids.Grid.GetCellByPosition: stated only on a filled lattice. For other contents, `GetCellByParams` gives the first-match semantics.
- Grids.Grid.GetCellByCoords: stated only on a filled lattice with a positive cell size. With a zero or negative size, the bands degenerate; other contents are covered by the first-match contract of `GetCellByParams`.
- Grids.Grid.SelectCell: stated only on a filled lattice with a positive cell size, like `GetCellByCoords`.

Lookups keep the source's linear scans rather than indexing the lattice directly. Direct indexing appears only as the reference definitions `CellUnder` and `Resolve`, and the lemmas prove the scans equal to them.
