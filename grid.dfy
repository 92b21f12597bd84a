/**
 * The board: a `rows × columns` lattice of cells built in two passes, with
 * lookups by pixel coordinates and by lattice position.
 */
module Grids {
  import opened Cells

  /** Row and column offsets of the eight neighbour slots, in the order NW, N, NE, W, E, SW, S, SE. */
  const Offsets: seq<(int, int)> :=
    [(-1, -1), (-1, 0), (-1, 1), (0, -1), (0, 1), (1, -1), (1, 0), (1, 1)]

  /** Which query a scan puts to each cell: `checkCoordinates` or `checkPosition`. */
  datatype Param = ByCoordinates | ByPosition

  /** A pointer event reduced to the numbers the grid uses. */
  datatype PointerEvent = PointerEvent(clientX: int, clientY: int, offsetLeft: int, offsetTop: int)
  {
    /** The pointer's x relative to the element: client x less the element's left offset. */
    function LocalX(): (x: int)
      ensures offsetLeft + x == clientX
    {
      clientX - offsetLeft
    }

    /** The pointer's y relative to the element: client y less the element's top offset. */
    function LocalY(): (y: int)
      ensures offsetTop + y == clientY
    {
      clientY - offsetTop
    }
  }

  /** The method a scan dispatches to by name. */
  predicate Check(cell: Cell, param: Param, p1: int, p2: int)
    ensures param.ByCoordinates? ==> (Check(cell, param, p1, p2) <==>
      cell.position.column * cell.size <= p1 <= cell.position.column * cell.size + cell.size &&
      cell.position.row * cell.size <= p2 <= cell.position.row * cell.size + cell.size)
    ensures param.ByPosition? ==> (Check(cell, param, p1, p2) <==> cell.position == Position(p1, p2))
  {
    match param
    case ByCoordinates => cell.CheckCoordinates(p1, p2)
    case ByPosition => cell.CheckPosition(p1, p2)
  }

  /** `i` is the first index of `s` whose element `keep` accepts. */
  ghost predicate FirstKept<T>(s: seq<T>, keep: T -> bool, i: int)
  {
    0 <= i < |s| && keep(s[i]) && forall k :: 0 <= k < i ==> !keep(s[k])
  }

  /** Array `filter`: the elements `keep` accepts, in their order. */
  function Filter<T>(s: seq<T>, keep: T -> bool): (f: seq<T>)
    ensures |f| <= |s|
    ensures forall k :: 0 <= k < |f| ==> keep(f[k])
    ensures |f| == 0 <==> forall i :: 0 <= i < |s| ==> !keep(s[i])
    ensures |f| > 0 ==> exists i :: FirstKept(s, keep, i) && f[0] == s[i]
  {
    if s == [] then []
    else if keep(s[0]) then
      assert FirstKept(s, keep, 0);
      [s[0]] + Filter(s[1..], keep)
    else
      var rest := Filter(s[1..], keep);
      assert |rest| > 0 ==> exists i :: FirstKept(s, keep, i) && rest[0] == s[i] by {
        if |rest| > 0 {
          var i :| FirstKept(s[1..], keep, i) && rest[0] == s[1..][i];
          assert FirstKept(s, keep, i + 1);
        }
      }
      rest
  }

  /** (i, j) is the first cell in row-major order that answers the query. */
  ghost predicate FirstMatch(cells: seq<seq<Cell>>, param: Param, p1: int, p2: int, i: int, j: int)
  {
    0 <= i < |cells| && 0 <= j < |cells[i]| && Check(cells[i][j], param, p1, p2) &&
    (forall i', j' :: 0 <= i' < i && 0 <= j' < |cells[i']| ==> !Check(cells[i'][j'], param, p1, p2)) &&
    (forall j' :: 0 <= j' < j ==> !Check(cells[i][j'], param, p1, p2))
  }

  /** `cells` holds `rows` rows of `columns` cells of side `size`, each at its own index. */
  ghost predicate Lattice(cells: seq<seq<Cell>>, rows: int, columns: int, size: int)
  {
    |cells| == rows &&
    (forall r :: 0 <= r < rows ==> |cells[r]| == columns) &&
    forall r, c :: 0 <= r < rows && 0 <= c < columns ==>
      cells[r][c].position == Position(r, c) && cells[r][c].size == size
  }

  /**
   * The first of `n` bands [b*size, b*size + size] (b = 0, 1, ...) that holds
   * the pixel coordinate `v`: on an edge two bands share, the lower one wins.
   */
  function Band(v: int, size: int, n: int): (b: int)
    requires size > 0 && n > 0 && 0 <= v <= n * size
    ensures 0 <= b < n && b * size <= v <= b * size + size
  {
    if v == 0 then 0
    else
      var b := (v - 1) / size;
      assert b * size + (v - 1) % size == v - 1;
      assert b < n by {
        if b >= n {
          MulMonotone(n, b, size);
        }
      }
      b
  }

  /** No band below `Band(v, size, n)` holds `v`: each ends before it. */
  lemma BandIsFirst(v: int, size: int, n: int, k: int)
    requires size > 0 && n > 0 && 0 <= v <= n * size
    requires 0 <= k < Band(v, size, n)
    ensures k * size + size < v
  {
    var b := Band(v, size, n);
    assert b * size + (v - 1) % size == v - 1;
    MulMonotone(k + 1, b, size);
  }

  lemma MulMonotone(a: int, b: int, s: int)
    requires a <= b && s >= 0
    ensures a * s <= b * s
  {
  }

  /**
   * The slot a candidate becomes when the lattice is indexed directly: the
   * cell at the candidate's position, or absent when there is none.
   */
  function Resolve(cells: seq<seq<Cell>>, slot: Slot): Slot
  {
    if slot.Candidate? && 0 <= slot.at.row < |cells| && 0 <= slot.at.column < |cells[slot.at.row]|
    then Linked(cells[slot.at.row][slot.at.column])
    else Absent
  }

  function ResolveAll(cells: seq<seq<Cell>>, slots: seq<Slot>): seq<Slot>
  {
    seq(|slots|, i requires 0 <= i < |slots| => Resolve(cells, slots[i]))
  }

  class Grid {
    var cells: seq<seq<Cell>>
    const rows: nat
    const columns: nat
    const cellSize: int

    constructor (rows: nat, columns: nat, cellSize: int := 50)
      ensures cells == [] && this.rows == rows && this.columns == columns && this.cellSize == cellSize
    {
      cells := [];
      this.rows := rows;
      this.columns := columns;
      this.cellSize := cellSize;
    }

    predicate InGrid(row: int, column: int)
    {
      0 <= row < rows && 0 <= column < columns
    }

    /** After the first pass: the cells fill the lattice. */
    ghost predicate Shaped()
      reads this
    {
      Lattice(cells, rows, columns, cellSize)
    }

    ghost function CellSet(): set<Cell>
      reads this
    {
      set r, c | 0 <= r < |cells| && 0 <= c < |cells[r]| :: cells[r][c]
    }

    /** After the second pass: every neighbour slot holds the cell at its candidate position. */
    ghost predicate Wired()
      reads this, CellSet()
    {
      Shaped() &&
      forall r, c :: InGrid(r, c) ==> cells[r][c].neighbors == Some(ResolveAll(cells, DefineCellNeighbors(r, c)))
    }

    /** After pass 1: the cell's slots hold the candidate pairs for its position. */
    ghost predicate HoldsCandidates(cell: Cell)
      reads cell
    {
      cell.neighbors == Some(DefineCellNeighbors(cell.position.row, cell.position.column))
    }

    /** A candidate slot for (row, column), or absent when that position is off the board. */
    function CandidateAt(row: int, column: int): Slot
    {
      if InGrid(row, column) then Candidate(Position(row, column)) else Absent
    }

    /** The eight candidate neighbour slots of an on-board cell, NW to SE, off-board ones absent. */
    function DefineCellNeighbors(row: int, column: int): (slots: seq<Slot>)
      ensures |slots| == 8
      ensures InGrid(row, column) ==>
        forall i :: 0 <= i < 8 ==> slots[i] == CandidateAt(row + Offsets[i].0, column + Offsets[i].1)
    {
      [
        if row > 0 && column > 0 then Candidate(Position(row - 1, column - 1)) else Absent,
        if row > 0 then Candidate(Position(row - 1, column)) else Absent,
        if row > 0 && column < columns - 1 then Candidate(Position(row - 1, column + 1)) else Absent,
        if column > 0 then Candidate(Position(row, column - 1)) else Absent,
        if column < columns - 1 then Candidate(Position(row, column + 1)) else Absent,
        if row < rows - 1 && column > 0 then Candidate(Position(row + 1, column - 1)) else Absent,
        if row < rows - 1 then Candidate(Position(row + 1, column)) else Absent,
        if row < rows - 1 && column < columns - 1 then Candidate(Position(row + 1, column + 1)) else Absent
      ]
    }

    /** The scan shared by both lookups: the first cell in row-major order that answers the query. */
    function GetCellByParams(p1: int, p2: int, param: Param): (r: Option<Cell>)
      reads this
      ensures r.None? <==>
        forall i, j :: 0 <= i < |cells| && 0 <= j < |cells[i]| ==> !Check(cells[i][j], param, p1, p2)
      ensures r.Some? ==> exists i, j :: FirstMatch(cells, param, p1, p2, i, j) && r.value == cells[i][j]
    {
      var keep := (cell: Cell) => Check(cell, param, p1, p2);
      var keepRow := (cellsRow: seq<Cell>) => |Filter(cellsRow, keep)| > 0;
      var row := Filter(cells, keepRow);
      if |row| > 0 then
        var found := Filter(row[0], keep);
        assert keepRow(row[0]);
        assert exists i, j :: FirstMatch(cells, param, p1, p2, i, j) && found[0] == cells[i][j] by {
          var i :| FirstKept(cells, keepRow, i) && row[0] == cells[i];
          var j :| FirstKept(cells[i], keep, j) && found[0] == cells[i][j];
          forall i', j' | 0 <= i' < i && 0 <= j' < |cells[i']|
            ensures !Check(cells[i'][j'], param, p1, p2)
          {
            assert !keepRow(cells[i']);
            assert !keep(cells[i'][j']);
          }
          assert FirstMatch(cells, param, p1, p2, i, j);
        }
        Some(found[0])
      else
        assert forall i, j :: 0 <= i < |cells| && 0 <= j < |cells[i]| ==> !Check(cells[i][j], param, p1, p2) by {
          forall i, j | 0 <= i < |cells| && 0 <= j < |cells[i]|
            ensures !Check(cells[i][j], param, p1, p2)
          {
            assert !keepRow(cells[i]);
            assert !keep(cells[i][j]);
          }
        }
        None
    }

    /** Whether the pixel lies in the board's extent [0, columns*size] × [0, rows*size], edges included. */
    predicate OnBoard(x: int, y: int)
    {
      rows > 0 && columns > 0 && 0 <= x <= columns * cellSize && 0 <= y <= rows * cellSize
    }

    /**
     * The cell under a pixel by direct arithmetic on the bands, the lower row
     * and then the lower column winning on a shared edge or corner.
     */
    ghost function CellUnder(x: int, y: int): Option<Cell>
      reads this
      requires Shaped() && cellSize > 0
    {
      if OnBoard(x, y) then Some(cells[Band(y, cellSize, rows)][Band(x, cellSize, columns)]) else None
    }

    /**
     * `getCellByCoords`: on a filled lattice of positive cell size, the cell
     * under the pixel as the bands give it, and nothing off the board.
     */
    function GetCellByCoords(x: int, y: int): (r: Option<Cell>)
      reads this
      ensures Shaped() && cellSize > 0 ==> r == CellUnder(x, y)
    {
      assert Shaped() && cellSize > 0 ==> GetCellByParams(x, y, ByCoordinates) == CellUnder(x, y) by {
        if Shaped() && cellSize > 0 {
          if OnBoard(x, y) {
            ScanOnBoard(this, x, y);
          } else {
            ScanOffBoard(this, x, y);
          }
        }
      }
      GetCellByParams(x, y, ByCoordinates)
    }

    /** On a filled lattice the scan by position is direct indexing, absent off the board. */
    function GetCellByPosition(row: int, column: int): (r: Option<Cell>)
      reads this
      ensures Shaped() ==> r == if InGrid(row, column) then Some(cells[row][column]) else None
    {
      assert Shaped() && InGrid(row, column) ==> Check(cells[row][column], ByPosition, row, column);
      GetCellByParams(row, column, ByPosition)
    }

    /**
     * One neighbour slot after the second pass. A present slot is looked up
     * by its pair; a slot that already holds a cell has no pair and is
     * looked up as `(undefined, undefined)`, which no cell matches.
     */
    function ConnectSlot(slot: Slot): (s: Slot)
      reads this
      ensures Shaped() ==> s == Resolve(cells, slot)
    {
      match slot
      case Candidate(p) =>
        (match GetCellByPosition(p.row, p.column)
         case Some(neighbor) => Linked(neighbor)
         case None => Absent)
      case _ => Absent
    }

    /** Array `map` of `ConnectSlot` over a slot list. */
    function ConnectSlots(slots: seq<Slot>): (linked: seq<Slot>)
      reads this
      ensures |linked| == |slots|
      ensures Shaped() ==> linked == ResolveAll(cells, slots)
    {
      if slots == [] then []
      else
        assert Shaped() ==> ResolveAll(cells, slots) == [Resolve(cells, slots[0])] + ResolveAll(cells, slots[1..]);
        [ConnectSlot(slots[0])] + ConnectSlots(slots[1..])
    }

    /** `connectNeighbors`: on a filled lattice, each candidate pair becomes the cell it names. */
    function ConnectNeighbors(cell: Cell): (slots: seq<Slot>)
      reads this, cell
      requires cell.neighbors.Some?
      ensures |slots| == |cell.neighbors.value|
      ensures Shaped() ==> slots == ResolveAll(cells, cell.neighbors.value)
    {
      ConnectSlots(cell.neighbors.value)
    }

    /** `selectCell`: client coordinates made grid-local by subtracting the element's offset. */
    function SelectCell(event: PointerEvent): (r: Option<Cell>)
      reads this
      ensures Shaped() && cellSize > 0 ==> r == CellUnder(event.LocalX(), event.LocalY())
    {
      GetCellByCoords(event.LocalX(), event.LocalY())
    }

    /** Builds the lattice (pass 1) and links every neighbour slot to its cell (pass 2); returns the grid. */
    method Init() returns (self: Grid)
      requires cells == []
      modifies this
      ensures self == this
      ensures Wired()
      ensures forall r, c :: InGrid(r, c) ==> fresh(cells[r][c])
    {
      CreateCells();
      ConnectCells();
      self := this;
    }

    /** Pass 1: row by row, a fresh cell per position, its neighbour slots holding candidate pairs. */
    method CreateCells()
      requires cells == []
      modifies this
      ensures Shaped()
      ensures forall r, c :: InGrid(r, c) ==>
        fresh(cells[r][c]) && HoldsCandidates(cells[r][c])
    {
      var row := 0;
      while row < rows
        invariant 0 <= row <= rows
        invariant Lattice(cells, row, columns, cellSize)
        invariant forall r, c :: 0 <= r < row && 0 <= c < columns ==>
          fresh(cells[r][c]) && HoldsCandidates(cells[r][c])
      {
        var cellsRow := CreateRow(row);
        cells := cells + [cellsRow];
        row := row + 1;
      }
    }

    /** One row of pass 1: a fresh cell per column, its slots holding candidate pairs. */
    method CreateRow(row: int) returns (cellsRow: seq<Cell>)
      ensures |cellsRow| == columns
      ensures forall c :: 0 <= c < columns ==>
        fresh(cellsRow[c]) && cellsRow[c].position == Position(row, c) && cellsRow[c].size == cellSize &&
        HoldsCandidates(cellsRow[c])
    {
      cellsRow := [];
      var column := 0;
      while column < columns
        invariant 0 <= column <= columns
        invariant |cellsRow| == column
        invariant forall c :: 0 <= c < column ==>
          fresh(cellsRow[c]) && cellsRow[c].position == Position(row, c) && cellsRow[c].size == cellSize &&
          HoldsCandidates(cellsRow[c])
      {
        var cell := new Cell(row, column, cellSize);
        cell.neighbors := Some(DefineCellNeighbors(row, column));
        cellsRow := cellsRow + [cell];
        column := column + 1;
      }
    }

    /** Pass 2: every cell's candidate pairs replaced by the cells they name. */
    method ConnectCells()
      requires Shaped()
      requires forall r, c :: InGrid(r, c) ==> HoldsCandidates(cells[r][c])
      modifies CellSet()
      ensures Wired()
    {
      var row := 0;
      while row < rows
        invariant 0 <= row <= rows
        invariant forall r, c :: 0 <= r < row && 0 <= c < columns ==>
          cells[r][c].neighbors == Some(ResolveAll(cells, old(cells[r][c].neighbors).value))
        invariant forall r, c :: row <= r < rows && 0 <= c < columns ==>
          cells[r][c].neighbors == old(cells[r][c].neighbors)
      {
        ConnectRow(row);
        row := row + 1;
      }
      forall r, c | InGrid(r, c)
        ensures cells[r][c].neighbors == Some(ResolveAll(cells, DefineCellNeighbors(r, c)))
      {
        assert old(HoldsCandidates(cells[r][c]));
      }
    }

    /** One row of pass 2, left to right. */
    method ConnectRow(row: int)
      requires Shaped() && 0 <= row < rows
      requires forall c :: 0 <= c < columns ==> cells[row][c].neighbors.Some?
      modifies CellSet()
      ensures forall c :: 0 <= c < columns ==>
        cells[row][c].neighbors == Some(ResolveAll(cells, old(cells[row][c].neighbors).value))
      ensures forall r, c :: InGrid(r, c) && r != row ==> cells[r][c].neighbors == old(cells[r][c].neighbors)
    {
      var column := 0;
      while column < columns
        invariant 0 <= column <= columns
        invariant forall c :: 0 <= c < column ==>
          cells[row][c].neighbors == Some(ResolveAll(cells, old(cells[row][c].neighbors).value))
        invariant forall r, c :: InGrid(r, c) && (r != row || column <= c) ==>
          cells[r][c].neighbors == old(cells[r][c].neighbors)
      {
        var cell := cells[row][column];
        assert cell in CellSet();
        cell.neighbors := Some(ConnectNeighbors(cell));
        column := column + 1;
      }
    }
  }

  // ---------------------------------------------------------------------------
  // The scan by coordinates against band arithmetic

  /** The scan by coordinates finds an on-board pixel in the cell at its row and column bands. */
  lemma ScanOnBoard(g: Grid, x: int, y: int)
    requires g.Shaped() && g.cellSize > 0 && g.OnBoard(x, y)
    ensures g.GetCellByParams(x, y, ByCoordinates) == Some(g.cells[Band(y, g.cellSize, g.rows)][Band(x, g.cellSize, g.columns)])
  {
    var r := g.GetCellByParams(x, y, ByCoordinates);
    assert Check(g.cells[Band(y, g.cellSize, g.rows)][Band(x, g.cellSize, g.columns)], ByCoordinates, x, y);
    var i, j :| FirstMatch(g.cells, ByCoordinates, x, y, i, j) && r.value == g.cells[i][j];
    FirstMatchIsBands(g, x, y, i, j);
  }

  /** The first cell in row-major order that holds an on-board pixel sits at the pixel's row and column bands. */
  lemma FirstMatchIsBands(g: Grid, x: int, y: int, i: int, j: int)
    requires g.Shaped() && g.cellSize > 0 && g.OnBoard(x, y)
    requires FirstMatch(g.cells, ByCoordinates, x, y, i, j)
    ensures i == Band(y, g.cellSize, g.rows) && j == Band(x, g.cellSize, g.columns)
  {
    var s := g.cellSize;
    var bi, bj := Band(y, s, g.rows), Band(x, s, g.columns);
    assert i * s <= y <= i * s + s && j * s <= x <= j * s + s;
    if i < bi {
      BandIsFirst(y, s, g.rows, i);
    }
    if j < bj {
      BandIsFirst(x, s, g.columns, j);
    }
    assert Check(g.cells[bi][bj], ByCoordinates, x, y);
    assert i <= bi;
    assert Check(g.cells[i][bj], ByCoordinates, x, y);
  }

  /** The scan by coordinates finds nothing for a pixel off the board. */
  lemma ScanOffBoard(g: Grid, x: int, y: int)
    requires g.Shaped() && g.cellSize > 0 && !g.OnBoard(x, y)
    ensures g.GetCellByParams(x, y, ByCoordinates) == None
  {
    var s := g.cellSize;
    forall i, j | 0 <= i < |g.cells| && 0 <= j < |g.cells[i]|
      ensures !Check(g.cells[i][j], ByCoordinates, x, y)
    {
      MulMonotone(0, j, s);
      MulMonotone(0, i, s);
      MulMonotone(j + 1, g.columns, s);
      MulMonotone(i + 1, g.rows, s);
    }
  }
}
