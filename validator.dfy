/** Placement Validator (`is_valid`): may a digit go at a cell? */
module Validator {
  import opened Grid

  /** No peer of (r, c) (another cell of its row, its column or its 3x3 box)
      holds num. The cell (r, c) itself is not looked at. */
  predicate CanPlace(g: seq<seq<int>>, num: int, r: int, c: int)
    requires Shaped(g)
  {
    forall i, j :: 0 <= i < 9 && 0 <= j < 9 && Peer(r, c, i, j) ==> g[i][j] != num
  }

  /** `is_valid`: scan the row, then the column, then the box (rows and
      columns 3 * (r / 3) .. 3 * (r / 3) + 2 and likewise for c), failing at
      the first other cell that holds num. Only reads the board. */
  method IsValid(board: array2<int>, num: int, pos: Pos) returns (ok: bool)
    requires board.Length0 == 9 && board.Length1 == 9
    requires InRange(pos.0, pos.1)
    ensures ok == CanPlace(Rows(board), num, pos.0, pos.1)
  {
    ghost var g := Rows(board);
    var (r, c) := pos;
    // Row check
    for j := 0 to 9
      invariant forall y :: 0 <= y < j && y != c ==> board[r, y] != num
    {
      if board[r, j] == num && c != j {
        assert Peer(r, c, r, j);
        return false;
      }
    }
    // Column check
    for i := 0 to 9
      invariant forall x :: 0 <= x < i && x != r ==> board[x, c] != num
    {
      if board[i, c] == num && r != i {
        assert Peer(r, c, i, c);
        return false;
      }
    }
    // 3x3 box check
    var boxX, boxY := c / 3, r / 3;
    for i := boxY * 3 to boxY * 3 + 3
      invariant forall x, y ::
                  boxY * 3 <= x < i && boxX * 3 <= y < boxX * 3 + 3 && (x, y) != (r, c) ==> board[x, y] != num
    {
      for j := boxX * 3 to boxX * 3 + 3
        invariant forall x, y ::
                    boxY * 3 <= x < i && boxX * 3 <= y < boxX * 3 + 3 && (x, y) != (r, c) ==> board[x, y] != num
        invariant forall y :: boxX * 3 <= y < j && (i, y) != (r, c) ==> board[i, y] != num
      {
        if board[i, j] == num && (i, j) != (r, c) {
          assert Peer(r, c, i, j);
          return false;
        }
      }
    }
    forall x, y | InRange(x, y) && Peer(r, c, x, y)
      ensures g[x][y] != num
    {
      if x != r && y != c {
        assert boxY * 3 <= x < boxY * 3 + 3 && boxX * 3 <= y < boxX * 3 + 3;
      }
    }
    return true;
  }
}
