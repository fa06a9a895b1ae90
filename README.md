# N-dimensional Minesweeper: coordinate arithmetic and cells, in Dafny

This project models the core of an N-dimensional Minesweeper engine written in
Rust. The board stores its cells in one flat vector, whatever the number of
dimensions. The model covers two parts of the engine:

- **`coordinates.dfy`** (module `Coordinates`, from `src/coordinates.rs`) holds
  the coordinate mapper:
  - `ToIndex` flattens a coordinate vector into a linear index. It uses a
    mixed-radix number whose least significant digit is axis 0. The stride
    of axis 0 is 1; the stride of axis i is the stride of axis i - 1 times
    `dims[i - 1]`.
  - `ToCoords` decodes a linear index back into coordinates, working from the
    last axis down to axis 0.
  - `GetNeighbors` lists the N-dimensional Moore neighbourhood of a cell. It
    scans the base-3 offset indices 0 .. 3^n - 1 and skips the centre index.
    It drops every candidate that leaves the grid on some axis. The inner
    loop over the axes is the method `ShiftCandidate`. Its early return with
    `inBounds == false` stands for the source's `continue 'outer`.

  The three are loops that update local state, so each is a `method` with
  loop invariants. Each is proved against a specification function:
  - `IndexOf` is the mixed-radix sum.
  - `Neighbors` is the scan written as a recursive function.
  - `IsNeighbor` independently defines "a different in-grid cell at Chebyshev
    distance 1".

  Lemmas then prove what the source promises about these functions: the
  bijection onto `[0, product)`, the two round trips, that the neighbour list
  is exactly the neighbourhood with no repeats and in increasing offset index,
  the neighbour counts, and the concrete results of the source's unit tests.
- **`cell.dfy`** (module `Cells`, from `src/cell.rs`) holds the cell types:
  - `CellState` (`Hidden`, `Revealed`, `Flagged`);
  - `CellKind` (`Mine`, or `Empty` with an 8-bit adjacent-mine count);
  - `Cell`;
  - the constructor `NewCell` (`Cell::new`).

Machine integers are unbounded `nat`/`int` in the model. The `requires`
clauses keep the Rust code from indexing out of bounds or dividing by zero:
- `ToIndex` needs `|coords| <= |dims| + 1`. It only reads `dims[i - 1]` for
  `i < |coords|`. This is exactly the condition under which the code cannot
  panic.
- `ToCoords` needs every extent except the last to be positive. It divides
  by the strides of axes 0 .. n - 1, and those strides use only the lower
  extents. This is also exact.
- `GetNeighbors` and `ShiftCandidate` require `|coords| <= |dims|`. This
  suffices, because they read `dims[j]` only for `j < |coords|`. It is not
  necessary: a scan can leave the grid on a lower axis before it reaches a
  missing extent. For example, `coords = [5, 0]` with `dims = [1]` makes
  every candidate fail the check on axis 0, so the code never reads
  `dims[1]`. The model does not cover such calls, whose coordinates have
  more axes than the grid.

Where the documentation and the code disagree, the model follows the code:

- The comment at `src/coordinates.rs:21-22` describes a 2-D index as
  `row * width + col`. The code computes `coords[0] + coords[1] * dims[0]`,
  so axis 0 is the least significant digit. This agrees with the 3-D comment
  at lines 23-24.
- `to_index` and `to_coords` are meant for valid coordinates of a grid with
  positive extents. The code asks less, as listed above, and the model
  states what it does beyond that range:
  - `ToCoords` never reduces the last component modulo its extent.
    `ToIndex(ToCoords(k))` is therefore `k` for every `k` once the grid has
    at least one axis, and an index past the end gives an out-of-range last
    component (`ToCoords`'s last `ensures`).
  - For the 0-dimensional grid, `to_coords` returns the empty vector whatever
    the index. That vector encodes to 0, so on this grid the index round
    trip holds for index 0 only.
- A full engine would also place mines, count adjacent mines, toggle flags,
  flood-fill reveals and track won/lost. In the code these are stubs (see
  "Left out").

## Model

| member | source | states |
|---|---|---|
| `Cells.NewCell` | src/cell.rs:39-44 | a new cell is `Hidden` and is an `Empty` cell with adjacent-mine count 0 (not a mine) |
| `Cells.CellStateCases` | src/cell.rs:18-26 | every cell state is `Hidden`, `Revealed` or `Flagged`, and the three are pairwise different |
| `Cells.MineIsNotACount` | src/cell.rs:28-35 | a kind is a mine exactly when it is not `Empty`; no `Empty` count, 0 included, equals `Mine` |
| `Cells.AdjacentCountInByte` | src/cell.rs:34 | the adjacent-mine count of an empty cell is within 0 .. 255 (a `u8`) |
| `Coordinates.Stride` | src/coordinates.rs:27-31 | the stride of axis i, `dims[0] * ... * dims[i-1]`, is positive when the extents below i are |
| `Coordinates.ToIndex` | src/coordinates.rs:19-35 | the loop returns the mixed-radix sum of `coords[i] * stride(i)` with axis 0 least significant, and the result is below the number of cells for valid coordinates |
| `Coordinates.IndexBelowProduct` | src/coordinates.rs:26-33 | a valid coordinate vector's index is below the product of the extents |
| `Coordinates.IndexInjective` | src/coordinates.rs:19-35 | two vectors of the grid's dimensionality whose components (all but the last) are in range and that have equal index are equal |
| `Coordinates.DecodeStep` | src/coordinates.rs:52-58 | one decoding step: the quotient by the stride of axis i is below that axis's extent (except on the last axis), quotient and remainder re-encode to the same index, and dividing the stride by `dims[i-1]` gives the stride of axis i - 1 |
| `Coordinates.ToCoords` | src/coordinates.rs:43-60 | the result has one component per axis, all but the last are below their extents, it encodes back to the index on a grid with at least one axis, and it is a valid cell exactly when the index is below the number of cells |
| `Coordinates.CoordsRoundTrip` | src/coordinates.rs:19-60 | decoding the index of a valid cell gives the cell back |
| `Coordinates.IndexRoundTrip` | src/coordinates.rs:19-60 | encoding the decoded coordinates of any index gives the index back on a grid with at least one axis, also past the end of the grid; on the 0-dimensional grid this holds for index 0 |
| `Coordinates.CenterIndex` | src/coordinates.rs:83-84 | the centre index c satisfies 2c + 1 = 3^n, so the source's (3^n - 1) / 2 divides exactly and lands on the middle offset index |
| `Coordinates.OffsetDigit` | src/coordinates.rs:94-96 | the offset of axis j is base-3 digit j of the offset index (least significant first) minus one |
| `Coordinates.OffsetsOfOffsetIndex` | src/coordinates.rs:86-96 | every vector of offsets in {-1, 0, 1} is decoded from its own offset index |
| `Coordinates.OffsetIndexOfOffsets` | src/coordinates.rs:86-96 | every offset index below 3^n is the index of its decoded offsets, so distinct indices give distinct offsets |
| `Coordinates.CenterIsZeroOffset` | src/coordinates.rs:84-89 | the skipped centre index (3^n - 1) / 2 is exactly the offset index whose offsets are all zero |
| `Coordinates.ShiftCandidate` | src/coordinates.rs:91-111 | the inner loop reports the candidate of offset index i as in the grid exactly when no component underflows below 0 or reaches its extent, and then returns the cell moved by that index's offsets |
| `Coordinates.DisplacementOfShift` | src/coordinates.rs:91-111 | moving a cell by offsets and taking the difference back gives the offsets again |
| `Coordinates.ShiftDisplacement` | src/coordinates.rs:91-111 | moving a cell by its difference to t lands on t |
| `Coordinates.GetNeighbors` | src/coordinates.rs:76-117 | the nested loops with the early exits return the neighbour list of the specification (empty for the empty coordinate vector) |
| `Coordinates.KeptIsNeighbor` | src/coordinates.rs:91-113 | a candidate that is not the centre and passes the underflow and overflow checks is an in-grid cell other than the origin at distance at most 1 per axis, reached by that offset index |
| `Coordinates.NeighborsBelowOrdered` | src/coordinates.rs:86-114 | everything found while scanning offset indices below m is a neighbour with offset index below m, listed in increasing offset index |
| `Coordinates.NeighborIsKept` | src/coordinates.rs:86-111 | every neighbour t is the candidate of its own offset index: that index is below 3^n, is not the centre, passes both bounds checks, and moves the cell onto t |
| `Coordinates.NeighborsBelowComplete` | src/coordinates.rs:86-114 | every neighbour whose offset index is below m is found while scanning the offset indices below m |
| `Coordinates.NeighborsExact` | src/coordinates.rs:76-117 | a vector is in the neighbour list if and only if it is a different cell of the grid at distance at most 1 on every axis |
| `Coordinates.NeighborsOrdered` | src/coordinates.rs:86-96 | the list is in strictly increasing base-3 offset index of the move from the cell to the neighbour |
| `Coordinates.NeighborsDistinct` | src/coordinates.rs:86-114 | no neighbour appears twice |
| `Coordinates.NeighborsBelowCount` | src/coordinates.rs:86-114 | scanning below m finds at most m candidates minus the centre, and exactly that many for a cell off the boundary |
| `Coordinates.NeighborsCount` | src/coordinates.rs:83-114 | there are at most 3^n - 1 neighbours, and exactly 3^n - 1 for a cell that is not on the boundary on any axis |
| `Coordinates.NeighborsOf2DCenter` | src/coordinates.rs:123-138 | the centre of a 3x3 grid has the eight surrounding cells, in scan order |
| `Coordinates.NeighborsOf2DCorner` | src/coordinates.rs:140-149 | the corner [0, 0] of a 3x3 grid has [1, 0], [0, 1], [1, 1] |
| `Coordinates.NeighborsOf2DEdge` | src/coordinates.rs:151-163 | the edge cell [0, 1] of a 3x3 grid has [0, 0], [1, 0], [1, 1], [0, 2], [1, 2] |
| `Coordinates.NeighborsOf1D` | src/coordinates.rs:165-174 | the middle of a line of three cells has [0] and [2] |
| `Coordinates.NeighborsOf3DCenter` | src/coordinates.rs:176-182 | the centre of a 3x3x3 grid has 26 neighbours |

## Left out

- `src/board.rs` is a stub. `Board::new` only stores the extents and the
  mine count, and the cell vector is commented out. Mine placement,
  adjacent-count computation, flag toggling, flood-fill reveal and win
  detection do not exist in the code, so there is nothing to model them
  against.
- `src/game.rs` is a stub. `Game::new` returns `InProgress` without building
  a board, and `state()` is a getter. No won/lost transition exists.
- Random mine placement does not appear in the code.
- `src/main.rs` is console output and a placeholder loop. `src/lib.rs` holds
  module declarations and re-exports only.
- Machine-integer widths are not modelled; all arithmetic is unbounded:
  - `3_u32.pow(n)` overflows for n >= 21;
  - the `as i32` casts in `get_neighbors`;
  - `usize` multiplication can overflow in `to_index` and `to_coords`.
- GetNeighbors: its `requires |coords| <= |dims|` also excludes a few calls
  that cannot panic in the source, namely coordinates with more axes than
  the grid whose scan always leaves the grid on a lower axis. The result of
  those calls is not modelled. `ShiftCandidate` has the same requires.
- Panics are not modelled as behaviour. The indexing and division that could
  panic are excluded by the `requires` clauses.
- The derived `Clone` and `Debug` implementations are not modelled. Dafny
  datatypes are immutable values with structural equality. For `CellState`
  and `CellKind` this matches their derived `PartialEq` and `Eq`. `Cell`
  (`src/cell.rs:8`) derives only `Clone` and `Debug`, so the Dafny `Cell`
  has an equality that the Rust struct lacks.
