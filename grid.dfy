/** The 9x9 Sudoku grid: cells hold 0 (empty) or a digit, rows and columns
    are numbered 0..8, and the 3x3 box of a cell is (row / 3, column / 3).
    A grid is modelled as a value (`seq<seq<int>>`, the shape the request
    carries) and, while the solver works on it, as an `array2<int>` that is
    updated in place; `Rows` reads the array back as a value. */
module Grid {

  datatype Option<T> = None | Some(value: T)

  /** A cell position (row, column). */
  type Pos = (int, int)

  /** Exactly 9 rows of exactly 9 cells each. */
  predicate Shaped(g: seq<seq<int>>)
  {
    |g| == 9 && forall i :: 0 <= i < 9 ==> |g[i]| == 9
  }

  predicate InRange(i: int, j: int)
  {
    0 <= i < 9 && 0 <= j < 9
  }

  /** Cell (i, j) shares a row, a column or a 3x3 box with cell (r, c) and is
      not that cell itself: the cells `is_valid` compares against. */
  predicate Peer(r: int, c: int, i: int, j: int)
  {
    (i, j) != (r, c) && (i == r || j == c || (i / 3 == r / 3 && j / 3 == c / 3))
  }

  /** The grid with cell (r, c) set to v: `board[row][col] = v`. */
  function Place(g: seq<seq<int>>, r: int, c: int, v: int): (h: seq<seq<int>>)
    requires Shaped(g) && InRange(r, c)
    ensures Shaped(h)
    ensures h[r][c] == v
    ensures forall i, j :: InRange(i, j) && (i, j) != (r, c) ==> h[i][j] == g[i][j]
  {
    g[r := g[r][c := v]]
  }

  /** The set of empty cells; its size is the solver's termination measure. */
  function EmptyCells(g: seq<seq<int>>): set<Pos>
    requires Shaped(g)
  {
    set i, j | 0 <= i < 9 && 0 <= j < 9 && g[i][j] == 0 :: (i, j)
  }

  /** Filling an empty cell with a non-zero digit removes exactly that cell
      from the empty cells, so their number drops by one. */
  lemma FillShrinks(g: seq<seq<int>>, r: int, c: int, v: int)
    requires Shaped(g) && InRange(r, c) && g[r][c] == 0 && v != 0
    ensures EmptyCells(Place(g, r, c, v)) == EmptyCells(g) - {(r, c)}
    ensures |EmptyCells(Place(g, r, c, v))| == |EmptyCells(g)| - 1
  {
  }

  /** Two shaped grids that agree on every cell are equal. */
  lemma Extensionality(g: seq<seq<int>>, h: seq<seq<int>>)
    requires Shaped(g) && Shaped(h)
    requires forall i, j :: InRange(i, j) ==> g[i][j] == h[i][j]
    ensures g == h
  {
    forall i | 0 <= i < 9
      ensures g[i] == h[i]
    {
      assert forall j :: 0 <= j < 9 ==> g[i][j] == h[i][j];
    }
  }

  /** The contents of a 9x9 board as a grid value. */
  function Rows(b: array2<int>): (g: seq<seq<int>>)
    reads b
    requires b.Length0 == 9 && b.Length1 == 9
    ensures Shaped(g)
    ensures forall i, j :: InRange(i, j) ==> g[i][j] == b[i, j]
  {
    seq(9, i requires 0 <= i < 9 reads b => seq(9, j requires 0 <= j < 9 reads b => b[i, j]))
  }
}
