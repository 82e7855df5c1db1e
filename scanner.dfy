/** Cell Scanner (`find_empty`): the first empty cell in row-major order. */
module Scanner {
  import opened Grid

  /** Cell (x, y) comes strictly before cell (a, b) in row-major order. */
  predicate Before(x: int, y: int, a: int, b: int)
  {
    x < a || (x == a && y < b)
  }

  /** The scan of `find_empty` resumed at row i, column j. */
  function ScanFrom(g: seq<seq<int>>, i: int, j: int): (r: Option<Pos>)
    requires Shaped(g) && 0 <= i <= 9 && 0 <= j <= 9
    ensures r.Some? ==>
      && InRange(r.value.0, r.value.1)
      && g[r.value.0][r.value.1] == 0
      && !Before(r.value.0, r.value.1, i, j)
      && forall x, y :: InRange(x, y) && !Before(x, y, i, j) && Before(x, y, r.value.0, r.value.1)
           ==> g[x][y] != 0
    ensures r.None? ==> forall x, y :: InRange(x, y) && !Before(x, y, i, j) ==> g[x][y] != 0
    decreases 9 - i, 9 - j
  {
    if i == 9 then None
    else if j == 9 then ScanFrom(g, i + 1, 0)
    else if g[i][j] == 0 then Some((i, j))
    else ScanFrom(g, i, j + 1)
  }

  /** `find_empty`: the first cell holding 0, scanning rows top to bottom and
      each row left to right, or None when no cell holds 0. */
  function FirstEmpty(g: seq<seq<int>>): (r: Option<Pos>)
    requires Shaped(g)
    ensures r.Some? ==>
      && InRange(r.value.0, r.value.1)
      && g[r.value.0][r.value.1] == 0
      && forall x, y :: InRange(x, y) && Before(x, y, r.value.0, r.value.1) ==> g[x][y] != 0
    ensures r.None? <==> forall x, y :: InRange(x, y) ==> g[x][y] != 0
  {
    ScanFrom(g, 0, 0)
  }

  /** `find_empty` on the board: two nested loops with an early return. */
  method FindEmpty(board: array2<int>) returns (r: Option<Pos>)
    requires board.Length0 == 9 && board.Length1 == 9
    ensures r == FirstEmpty(Rows(board))
  {
    ghost var g := Rows(board);
    for i := 0 to 9
      invariant ScanFrom(g, i, 0) == FirstEmpty(g)
    {
      for j := 0 to 9
        invariant ScanFrom(g, i, j) == FirstEmpty(g)
      {
        if board[i, j] == 0 {
          return Some((i, j));
        }
      }
    }
    return None;
  }
}
