/** The 9x9 board: it owns 81 cells, finds a cell by coordinates, walks them in
    row-major order, converts to and from an integer matrix, copies itself and
    normalizes its cells. */
module Board {
  import opened Rules
  import opened Cells

  /** Row-major position of a cell, from its own coordinates. */
  function Position(c: Cell): int {
    Index(c.row, c.column)
  }

  class Sudoku {
    /** The cell matrix, row by row; it is filled once, by a constructor. */
    const cells: seq<seq<Cell>>
    /** The 81 cells of the board. */
    ghost const Repr: set<Cell>

    /** Cell (i, j) of the matrix has coordinates (i, j), and Repr holds
        exactly the cells of the matrix. */
    ghost predicate Valid() {
      |cells| == 9 && (forall i :: 0 <= i < 9 ==> |cells[i]| == 9) &&
      (forall i, j :: InGrid(i, j) ==>
        cells[i][j] in Repr && cells[i][j].row == i && cells[i][j].column == j) &&
      (forall c :: c in Repr ==> InGrid(c.row, c.column) && cells[c.row][c.column] == c)
    }

    /** The values of the board, row by row. */
    ghost function Grid(): (g: Grid)
      requires Valid()
      reads Repr
      ensures IsGrid(g)
      ensures forall i, j :: InGrid(i, j) ==> g[i][j] == cells[i][j].value
    {
      Rows(|cells|)
    }

    /** The values of the first n rows. */
    ghost function Rows(n: nat): (rows: seq<seq<int>>)
      requires Valid() && n <= 9
      reads Repr
      ensures |rows| == n
      ensures forall i :: 0 <= i < n ==> |rows[i]| == 9
      ensures forall i, j :: 0 <= i < n && 0 <= j < 9 ==> rows[i][j] == cells[i][j].value
    {
      if n == 0 then [] else Rows(n - 1) + [RowPrefix(n - 1, |cells[n - 1]|)]
    }

    /** The first n values of row i. */
    ghost function RowPrefix(i: int, n: nat): (row: seq<int>)
      requires Valid() && 0 <= i < 9 && n <= 9
      reads Repr
      ensures |row| == n
      ensures forall j :: 0 <= j < n ==> row[j] == cells[i][j].value
    {
      if n == 0 then [] else RowPrefix(i, n - 1) + [cells[i][n - 1].value]
    }

    /** Two cells of the board at the same position are the same cell. */
    lemma PositionDetermines(x: Cell, y: Cell)
      requires Valid() && x in Repr && y in Repr && Position(x) == Position(y)
      ensures x == y
    {
      assert x.row == y.row;
    }

    /** The cells at row-major positions before n. */
    ghost function PrefixCells(n: int): set<Cell> {
      set c | c in Repr && Position(c) < n
    }

    /** The board has n distinct cells before position n. */
    lemma {:induction false} ReprPrefixSize(n: nat)
      requires Valid() && n <= 81
      ensures |PrefixCells(n)| == n
    {
      if n > 0 {
        ReprPrefixSize(n - 1);
        var x := cells[(n - 1) / 9][(n - 1) % 9];
        assert Position(x) == n - 1;
        forall c | c in PrefixCells(n)
          ensures c in PrefixCells(n - 1) + {x}
        {
          if Position(c) == n - 1 {
            PositionDetermines(c, x);
          }
        }
        assert PrefixCells(n) == PrefixCells(n - 1) + {x};
      }
    }

    /** The board has exactly 81 distinct cells. */
    lemma ReprSize()
      requires Valid()
      ensures |Repr| == 81
    {
      ReprPrefixSize(81);
      assert PrefixCells(81) == Repr;
    }

    /** Sudoku(): 81 empty cells, cell (i, j) at row i and column j. */
    constructor ()
      ensures Valid() && fresh(Repr)
      ensures forall i, j :: InGrid(i, j) ==>
        cells[i][j].value == 0 && cells[i][j].triedValues == {} && !cells[i][j].isGiven
    {
      var rows: seq<seq<Cell>> := [];
      for i := 0 to 9
        invariant |rows| == i && forall k :: 0 <= k < i ==> |rows[k]| == 9
        invariant forall k, l :: 0 <= k < i && 0 <= l < 9 ==>
          fresh(rows[k][l]) && rows[k][l].row == k && rows[k][l].column == l &&
          rows[k][l].value == 0 && rows[k][l].triedValues == {} && !rows[k][l].isGiven
      {
        var row: seq<Cell> := [];
        for j := 0 to 9
          invariant forall k, l :: 0 <= k < i && 0 <= l < 9 ==>
            rows[k][l].value == 0 && rows[k][l].triedValues == {} && !rows[k][l].isGiven
          invariant |row| == j
          invariant forall l :: 0 <= l < j ==>
            fresh(row[l]) && row[l].row == i && row[l].column == l &&
            row[l].value == 0 && row[l].triedValues == {} && !row[l].isGiven
        {
          var cell := new Cell.At(i, j);
          row := row + [cell];
        }
        rows := rows + [row];
      }
      cells := rows;
      Repr := set k, l | InGrid(k, l) :: rows[k][l];
    }

    /** Sudoku(matrix, setGivens): cell (i, j) holds matrix[i][j] unchecked;
        with setGivens every cell is normalized, so it is given exactly when
        it is non-zero. */
    constructor FromMatrix(matrix: array2<int>, setGivens: bool)
      requires matrix.Length0 >= 9 && matrix.Length1 >= 9
      ensures Valid() && fresh(Repr)
      ensures forall i, j :: InGrid(i, j) ==>
        cells[i][j].value == matrix[i, j] && cells[i][j].triedValues == {} &&
        cells[i][j].isGiven == (setGivens && matrix[i, j] != 0)
    {
      var rows: seq<seq<Cell>> := [];
      for i := 0 to 9
        invariant |rows| == i && forall k :: 0 <= k < i ==> |rows[k]| == 9
        invariant forall k, l :: 0 <= k < i && 0 <= l < 9 ==>
          fresh(rows[k][l]) && rows[k][l].row == k && rows[k][l].column == l &&
          rows[k][l].value == matrix[k, l] && rows[k][l].triedValues == {} &&
          rows[k][l].isGiven == (setGivens && matrix[k, l] != 0)
      {
        var row: seq<Cell> := [];
        for j := 0 to 9
          invariant forall k, l :: 0 <= k < i && 0 <= l < 9 ==>
            rows[k][l].value == matrix[k, l] && rows[k][l].triedValues == {} &&
            rows[k][l].isGiven == (setGivens && matrix[k, l] != 0)
          invariant |row| == j
          invariant forall l :: 0 <= l < j ==>
            fresh(row[l]) && row[l].row == i && row[l].column == l &&
            row[l].value == matrix[i, l] && row[l].triedValues == {} &&
            row[l].isGiven == (setGivens && matrix[i, l] != 0)
        {
          var cell := new Cell.WithValue(i, j, matrix[i, j]);
          if setGivens {
            cell.Normalize();
          }
          row := row + [cell];
        }
        rows := rows + [row];
      }
      cells := rows;
      Repr := set k, l | InGrid(k, l) :: rows[k][l];
    }

    /** Sudoku(matrix): the matrix's values, no cell given. */
    static method OfMatrix(matrix: array2<int>) returns (s: Sudoku)
      requires matrix.Length0 >= 9 && matrix.Length1 >= 9
      ensures s.Valid() && fresh(s.Repr)
      ensures forall i, j :: InGrid(i, j) ==>
        s.cells[i][j].value == matrix[i, j] && s.cells[i][j].triedValues == {} && !s.cells[i][j].isGiven
    {
      s := new Sudoku.FromMatrix(matrix, false);
    }

    /** Sudoku.getCell. */
    function GetCell(row: int, column: int): (c: Cell)
      requires Valid() && InGrid(row, column)
      ensures c in Repr && c.row == row && c.column == column
    {
      cells[row][column]
    }

    /** Sudoku.nextCell: the cell one row-major position further on, or null
        after (8,8). */
    function NextCell(cell: Cell): (next: Cell?)
      requires Valid() && InGrid(cell.row, cell.column)
      ensures next == null <==> cell.row == 8 && cell.column == 8
      ensures next != null ==> next in Repr && Position(next) == Position(cell) + 1
      ensures next != null && cell.column < 8 ==> next.row == cell.row && next.column == cell.column + 1
      ensures next != null && cell.column == 8 ==> next.row == cell.row + 1 && next.column == 0
    {
      var r, c := cell.row, cell.column;
      if c < 8 then GetCell(r, c + 1)
      else if r < 8 then GetCell(r + 1, 0)
      else null
    }

    /** Sudoku.previousCell: the cell one row-major position back, or null
        before (0,0). */
    function PreviousCell(cell: Cell): (previous: Cell?)
      requires Valid() && InGrid(cell.row, cell.column)
      ensures previous == null <==> cell.row == 0 && cell.column == 0
      ensures previous != null ==> previous in Repr && Position(previous) == Position(cell) - 1
      ensures previous != null && cell.column > 0 ==> previous.row == cell.row && previous.column == cell.column - 1
      ensures previous != null && cell.column == 0 ==> previous.row == cell.row - 1 && previous.column == 8
    {
      var r, c := cell.row, cell.column;
      if c > 0 then GetCell(r, c - 1)
      else if r != 0 then GetCell(r - 1, 8)
      else null
    }

    /** Stepping forward then back returns to the cell, everywhere but (8,8). */
    lemma PreviousOfNext(x: Cell)
      requires Valid() && x in Repr && !(x.row == 8 && x.column == 8)
      ensures NextCell(x) != null && PreviousCell(NextCell(x)) == x
    {
      PositionDetermines(PreviousCell(NextCell(x)), x);
    }

    /** Stepping back then forward returns to the cell, everywhere but (0,0). */
    lemma NextOfPrevious(x: Cell)
      requires Valid() && x in Repr && !(x.row == 0 && x.column == 0)
      ensures PreviousCell(x) != null && NextCell(PreviousCell(x)) == x
    {
      PositionDetermines(NextCell(PreviousCell(x)), x);
    }

    /** Sudoku.toArray: a fresh 9x9 matrix of the values. */
    method ToArray() returns (matrix: array2<int>)
      requires Valid()
      ensures fresh(matrix) && matrix.Length0 == 9 && matrix.Length1 == 9
      ensures forall i, j :: InGrid(i, j) ==> matrix[i, j] == Grid()[i][j]
    {
      matrix := new int[9, 9];
      for i := 0 to 9
        invariant forall k, l :: InGrid(k, l) && k < i ==> matrix[k, l] == cells[k][l].value
      {
        for j := 0 to 9
          invariant forall k, l :: InGrid(k, l) && (k < i || (k == i && l < j)) ==> matrix[k, l] == cells[k][l].value
        {
          matrix[i, j] := cells[i][j].value;
        }
      }
    }

    /** Sudoku.clone: a new board with the same values, built from the
        matrix, so no cell is given and no history is kept; its cells are
        new, so changing them leaves this board alone. */
    method Clone() returns (copy: Sudoku)
      requires Valid()
      ensures copy.Valid() && fresh(copy.Repr)
      ensures copy.Grid() == Grid()
      ensures forall i, j :: InGrid(i, j) ==> copy.cells[i][j].triedValues == {} && !copy.cells[i][j].isGiven
    {
      var matrix := ToArray();
      copy := OfMatrix(matrix);
      assert forall i :: 0 <= i < 9 ==> copy.Grid()[i] == Grid()[i];
    }

    /** Sudoku.normalize: normalizes every cell. It visits getCell(j, i),
        column by column, which still covers all 81 cells. */
    method Normalize()
      requires Valid()
      modifies Repr
      ensures forall i, j :: InGrid(i, j) ==> cells[i][j].State() == Normalized(old(cells[i][j].State()))
    {
      for i := 0 to 9
        invariant forall x :: x in Repr ==>
          x.State() == if x.column < i then Normalized(old(x.State())) else old(x.State())
      {
        for j := 0 to 9
          invariant forall x :: x in Repr ==>
            x.State() == if x.column < i || (x.column == i && x.row < j) then Normalized(old(x.State())) else old(x.State())
        {
          var cell := GetCell(j, i);
          cell.Normalize();
        }
      }
    }
  }

  /** new Sudoku(m).toArray() gives back m. */
  method MatrixRoundTrip(m: array2<int>) returns (back: array2<int>)
    requires m.Length0 == 9 && m.Length1 == 9
    ensures back.Length0 == 9 && back.Length1 == 9
    ensures forall i, j :: InGrid(i, j) ==> back[i, j] == m[i, j]
  {
    var s := Sudoku.OfMatrix(m);
    back := s.ToArray();
  }
}
