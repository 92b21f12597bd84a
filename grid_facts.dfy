/**
 * What the board guarantees once built: where a pixel lands, how many
 * neighbours each cell has, and that the neighbour links are mutual.
 */
module GridFacts {
  import opened Cells
  import opened Grids

  /** The number of present (non-absent) slots. */
  function CountPresent(slots: seq<Slot>): nat
  {
    if slots == [] then 0 else (if slots[0].Absent? then 0 else 1) + CountPresent(slots[1..])
  }

  /** The positions named by the present candidate slots, in slot order. */
  function CandidatePositions(slots: seq<Slot>): seq<Position>
  {
    if slots == [] then []
    else (if slots[0].Candidate? then [slots[0].at] else []) + CandidatePositions(slots[1..])
  }

  /** How many of the lines i - 1, i, i + 1 lie in [0, n). */
  function Span(i: int, n: int): int
  {
    (if i > 0 then 1 else 0) + 1 + (if i < n - 1 then 1 else 0)
  }

  predicate OnBorder(i: int, n: int)
  {
    i == 0 || i == n - 1
  }

  /** Chebyshev (king-move) distance between two positions. */
  function Chebyshev(p: Position, q: Position): nat
  {
    var dr := if p.row < q.row then q.row - p.row else p.row - q.row;
    var dc := if p.column < q.column then q.column - p.column else p.column - q.column;
    if dr < dc then dc else dr
  }

  // ---------------------------------------------------------------------------
  // Lookup

  /** On a 2 × 2 board of 10-pixel cells: interior points, shared corners and points off the board. */
  lemma TwoByTwoLookups(g: Grid)
    requires g.Shaped() && g.rows == 2 && g.columns == 2 && g.cellSize == 10
    ensures g.GetCellByCoords(5, 5) == Some(g.cells[0][0])
    ensures g.GetCellByCoords(15, 15) == Some(g.cells[1][1])
    ensures g.GetCellByCoords(10, 10) == Some(g.cells[0][0])
    ensures g.GetCellByCoords(20, 20) == Some(g.cells[1][1])
    ensures g.GetCellByCoords(-1, -1) == None
    ensures g.GetCellByCoords(1000, 1000) == None
  {
  }

  /** On a filled lattice each position is held by one cell: distinct indices, distinct cells. */
  lemma CellsDistinct(g: Grid, r1: int, c1: int, r2: int, c2: int)
    requires g.Shaped() && g.InGrid(r1, c1) && g.InGrid(r2, c2)
    ensures g.cells[r1][c1] == g.cells[r2][c2] <==> r1 == r2 && c1 == c2
  {
  }

  /** The cells of the first `k` rows of a lattice with `columns` columns. */
  ghost function FirstRows(cells: seq<seq<Cell>>, k: int, columns: int): set<Cell>
    requires 0 <= k <= |cells| && forall r :: 0 <= r < k ==> |cells[r]| == columns
  {
    set r, c | 0 <= r < k && 0 <= c < columns :: cells[r][c]
  }

  /** The first `m` cells of row `r`. */
  ghost function RowPrefix(cells: seq<seq<Cell>>, r: int, m: int): set<Cell>
    requires 0 <= r < |cells| && 0 <= m <= |cells[r]|
  {
    set c | 0 <= c < m :: cells[r][c]
  }

  lemma {:induction false} RowPrefixSize(cells: seq<seq<Cell>>, rows: int, columns: int, size: int, r: int, m: int)
    requires Lattice(cells, rows, columns, size) && 0 <= r < rows && 0 <= m <= columns
    ensures |RowPrefix(cells, r, m)| == m
    ensures forall cell :: cell in RowPrefix(cells, r, m) ==> cell.position.row == r
  {
    if m > 0 {
      RowPrefixSize(cells, rows, columns, size, r, m - 1);
      assert RowPrefix(cells, r, m) == RowPrefix(cells, r, m - 1) + {cells[r][m - 1]};
      assert cells[r][m - 1] !in RowPrefix(cells, r, m - 1);
    } else {
      assert RowPrefix(cells, r, m) == {};
    }
  }

  /** The first `k` rows are the first `k - 1` rows and the whole of row `k - 1`. */
  lemma FirstRowsSplit(cells: seq<seq<Cell>>, columns: int, k: int)
    requires 0 < k <= |cells| && forall r :: 0 <= r < k ==> |cells[r]| == columns
    requires |cells[k - 1]| == columns
    ensures FirstRows(cells, k, columns) == FirstRows(cells, k - 1, columns) + RowPrefix(cells, k - 1, columns)
  {
  }

  /** Every cell of the first `k` rows of a lattice sits in a row below `k`. */
  lemma FirstRowsBelow(cells: seq<seq<Cell>>, rows: int, columns: int, size: int, k: int)
    requires Lattice(cells, rows, columns, size) && 0 <= k <= rows
    ensures forall cell :: cell in FirstRows(cells, k, columns) ==> cell.position.row < k
  {
  }

  /** Cells of rows below `row` and cells of row `row` are apart, so their counts add up. */
  lemma RowsApartSize(below: set<Cell>, at: set<Cell>, row: int)
    requires forall cell :: cell in below ==> cell.position.row < row
    requires forall cell :: cell in at ==> cell.position.row == row
    ensures |below + at| == |below| + |at|
  {
  }

  lemma MulStep(k: int, n: int)
    ensures k * n == (k - 1) * n + n
  {
  }

  lemma {:induction false} FirstRowsSize(cells: seq<seq<Cell>>, rows: int, columns: int, size: int, k: int)
    requires Lattice(cells, rows, columns, size) && 0 <= k <= rows && columns >= 0
    ensures |FirstRows(cells, k, columns)| == k * columns
  {
    if k > 0 {
      var earlier, last := FirstRows(cells, k - 1, columns), RowPrefix(cells, k - 1, columns);
      assert |earlier| == (k - 1) * columns by {
        FirstRowsSize(cells, rows, columns, size, k - 1);
      }
      assert |earlier + last| == |earlier| + columns by {
        FirstRowsBelow(cells, rows, columns, size, k - 1);
        RowPrefixSize(cells, rows, columns, size, k - 1, columns);
        RowsApartSize(earlier, last, k - 1);
      }
      assert FirstRows(cells, k, columns) == earlier + last by {
        FirstRowsSplit(cells, columns, k);
      }
      MulStep(k, columns);
    } else {
      assert FirstRows(cells, k, columns) == {};
    }
  }

  /** A filled lattice holds exactly rows × columns distinct cells. */
  lemma CellCount(g: Grid)
    requires g.Shaped()
    ensures |g.CellSet()| == g.rows * g.columns
  {
    FirstRowsSize(g.cells, g.rows, g.columns, g.cellSize, g.rows);
    assert g.CellSet() == FirstRows(g.cells, g.rows, g.columns);
  }

  // ---------------------------------------------------------------------------
  // Neighbour candidates

  /**
   * A present candidate of an on-board cell names an on-board position one
   * king move away, and that position's candidate in the mirrored slot
   * names the cell back.
   */
  lemma CandidateSymmetry(g: Grid, row: int, column: int, i: int)
    requires g.InGrid(row, column) && 0 <= i < 8
    requires g.DefineCellNeighbors(row, column)[i].Candidate?
    ensures var p := g.DefineCellNeighbors(row, column)[i].at;
      g.InGrid(p.row, p.column) &&
      Chebyshev(p, Position(row, column)) == 1 &&
      g.DefineCellNeighbors(p.row, p.column)[7 - i] == Candidate(Position(row, column))
  {
  }

  /** Counting the present candidates: lines available around the row times around the column, less the cell itself. */
  lemma NeighborCount(g: Grid, row: int, column: int)
    requires g.InGrid(row, column)
    ensures CountPresent(g.DefineCellNeighbors(row, column)) == Span(row, g.rows) * Span(column, g.columns) - 1
  {
    var s := g.DefineCellNeighbors(row, column);
    assert s == [s[0], s[1], s[2], s[3], s[4], s[5], s[6], s[7]];
    assert CountPresent(s[7..]) == (if s[7].Absent? then 0 else 1);
    assert CountPresent(s[6..]) == (if s[6].Absent? then 0 else 1) + CountPresent(s[7..]);
    assert CountPresent(s[5..]) == (if s[5].Absent? then 0 else 1) + CountPresent(s[6..]);
    assert CountPresent(s[4..]) == (if s[4].Absent? then 0 else 1) + CountPresent(s[5..]);
    assert CountPresent(s[3..]) == (if s[3].Absent? then 0 else 1) + CountPresent(s[4..]);
    assert CountPresent(s[2..]) == (if s[2].Absent? then 0 else 1) + CountPresent(s[3..]);
    assert CountPresent(s[1..]) == (if s[1].Absent? then 0 else 1) + CountPresent(s[2..]);
  }

  /** On a board at least 2 × 2: corners have 3 candidates, other border cells 5, interior cells 8. */
  lemma CornerEdgeInteriorCounts(g: Grid, row: int, column: int)
    requires g.rows >= 2 && g.columns >= 2 && g.InGrid(row, column)
    ensures CountPresent(g.DefineCellNeighbors(row, column)) ==
      if OnBorder(row, g.rows) && OnBorder(column, g.columns) then 3
      else if OnBorder(row, g.rows) || OnBorder(column, g.columns) then 5
      else 8
  {
    NeighborCount(g, row, column);
  }

  /** On a 3 × 3 board the corner (0, 0) has exactly (0, 1), (1, 0), (1, 1); the centre has all eight. */
  lemma ThreeByThreeNeighbors(g: Grid)
    requires g.rows == 3 && g.columns == 3
    ensures CandidatePositions(g.DefineCellNeighbors(0, 0)) == [Position(0, 1), Position(1, 0), Position(1, 1)]
    ensures CountPresent(g.DefineCellNeighbors(1, 1)) == 8
  {
    var s := g.DefineCellNeighbors(0, 0);
    assert s == [Absent, Absent, Absent, Absent, Candidate(Position(0, 1)), Absent,
                 Candidate(Position(1, 0)), Candidate(Position(1, 1))];
    assert CandidatePositions(s[4..]) == [Position(0, 1), Position(1, 0), Position(1, 1)] by {
      assert CandidatePositions(s[6..]) == [Position(1, 0), Position(1, 1)] by {
        assert CandidatePositions(s[7..]) == [Position(1, 1)];
      }
      assert CandidatePositions(s[5..]) == CandidatePositions(s[6..]);
    }
    assert CandidatePositions(s[2..]) == CandidatePositions(s[4..]) by {
      assert CandidatePositions(s[3..]) == CandidatePositions(s[4..]);
    }
    assert CandidatePositions(s[1..]) == CandidatePositions(s[2..]);
    CornerEdgeInteriorCounts(g, 1, 1);
  }

  // ---------------------------------------------------------------------------
  // Neighbour links after `init`

  /** Resolving a slot list keeps the present/absent pattern when every candidate is on the lattice. */
  lemma {:induction false} ResolveKeepsCount(cells: seq<seq<Cell>>, slots: seq<Slot>)
    requires forall k :: 0 <= k < |slots| && slots[k].Candidate? ==>
      0 <= slots[k].at.row < |cells| && 0 <= slots[k].at.column < |cells[slots[k].at.row]|
    requires forall k :: 0 <= k < |slots| ==> !slots[k].Linked?
    ensures CountPresent(ResolveAll(cells, slots)) == CountPresent(slots)
  {
    if slots != [] {
      ResolveKeepsCount(cells, slots[1..]);
      assert ResolveAll(cells, slots)[1..] == ResolveAll(cells, slots[1..]);
    }
  }

  /**
   * After `init`, slot i of the cell at (row, column) holds a cell exactly
   * when its candidate was present, and then it is the lattice cell at the
   * candidate position; an absent candidate stays absent.
   */
  lemma LinksFollowCandidates(g: Grid, row: int, column: int, i: int)
    requires g.Wired() && g.InGrid(row, column) && 0 <= i < 8
    ensures g.cells[row][column].neighbors.Some? && |g.cells[row][column].neighbors.value| == 8
    ensures var slot, candidate := g.cells[row][column].neighbors.value[i], g.DefineCellNeighbors(row, column)[i];
      (slot.Absent? <==> candidate.Absent?) &&
      (slot.Linked? <==> candidate.Candidate?) &&
      (candidate.Candidate? ==> slot.cell == g.cells[candidate.at.row][candidate.at.column] &&
                                 slot.cell.position == candidate.at)
  {
    var candidates := g.DefineCellNeighbors(row, column);
    assert g.cells[row][column].neighbors == Some(ResolveAll(g.cells, candidates));
    var candidate := candidates[i];
    assert g.cells[row][column].neighbors.value[i] == Resolve(g.cells, candidate);
    if candidate.Candidate? {
      CandidateSymmetry(g, row, column, i);
    }
  }

  /** After `init` each cell links as many neighbours as it had candidates: 3, 5 or 8 on a board at least 2 × 2. */
  lemma LinkedCount(g: Grid, row: int, column: int)
    requires g.Wired() && g.InGrid(row, column)
    ensures g.cells[row][column].neighbors.Some?
    ensures CountPresent(g.cells[row][column].neighbors.value) == Span(row, g.rows) * Span(column, g.columns) - 1
  {
    var candidates := g.DefineCellNeighbors(row, column);
    forall k | 0 <= k < 8 && candidates[k].Candidate?
      ensures 0 <= candidates[k].at.row < |g.cells| && 0 <= candidates[k].at.column < |g.cells[candidates[k].at.row]|
    {
      CandidateSymmetry(g, row, column, k);
    }
    ResolveKeepsCount(g.cells, candidates);
    NeighborCount(g, row, column);
  }

  /**
   * After `init` the links are mutual: if cell B fills slot i of cell A, then
   * B is one king move from A and A fills the mirrored slot 7 - i of B.
   */
  lemma NeighborSymmetry(g: Grid, row: int, column: int, i: int)
    requires g.Wired() && g.InGrid(row, column) && 0 <= i < 8
    requires g.cells[row][column].neighbors.Some? && |g.cells[row][column].neighbors.value| == 8
    requires g.cells[row][column].neighbors.value[i].Linked?
    ensures var b := g.cells[row][column].neighbors.value[i].cell;
      Chebyshev(b.position, Position(row, column)) == 1 &&
      b.neighbors.Some? && |b.neighbors.value| == 8 &&
      b.neighbors.value[7 - i] == Linked(g.cells[row][column])
  {
    LinksFollowCandidates(g, row, column, i);
    var p := g.DefineCellNeighbors(row, column)[i].at;
    CandidateSymmetry(g, row, column, i);
    LinksFollowCandidates(g, p.row, p.column, 7 - i);
  }
}
