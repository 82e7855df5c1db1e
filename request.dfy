/** The solver's boundary: `validate_board`, and the handler's
    validate / copy / solve decision without its HTTP and JSON plumbing. */
module Request {
  import opened Grid
  import opened Solver
  import opened Properties

  /** Exactly 9 rows, each of exactly 9 cells, each cell in 0..9. */
  predicate WellFormed(board: seq<seq<int>>)
  {
    && |board| == 9
    && forall i :: 0 <= i < 9 ==>
         && |board[i]| == 9
         && forall j :: 0 <= j < 9 ==> 0 <= board[i][j] <= 9
  }

  /** `validate_board`: row count, then row by row the row length and each
      cell's range, rejecting at the first fault. */
  method ValidateBoard(board: seq<seq<int>>) returns (ok: bool)
    ensures ok == WellFormed(board)
  {
    if |board| != 9 {
      return false;
    }
    for i := 0 to 9
      invariant forall x :: 0 <= x < i ==> |board[x]| == 9 && forall y :: 0 <= y < 9 ==> 0 <= board[x][y] <= 9
    {
      var row := board[i];
      if |row| != 9 {
        return false;
      }
      for j := 0 to 9
        invariant forall y :: 0 <= y < j ==> 0 <= row[y] <= 9
      {
        var cell := row[j];
        if cell < 0 || cell > 9 {
          return false;
        }
      }
    }
    return true;
  }

  /** What the solve endpoint reports. */
  datatype Reply = InvalidFormat | SolvedBoard(board: seq<seq<int>>) | NoSolution

  /** Validate, copy the rows into a fresh board (the caller's grid is a value
      and is never touched), solve the copy, and report. */
  method SolveRequest(board: seq<seq<int>>) returns (reply: Reply)
    ensures reply == InvalidFormat <==> !WellFormed(board)
    ensures WellFormed(board) ==> (reply.SolvedBoard? <==> Solvable(board))
    ensures reply.SolvedBoard? ==> WellFormed(board) && Search(board) == Some(reply.board)
    ensures reply.SolvedBoard? ==> WellFormed(board) && Completion(board, reply.board)
    ensures reply.SolvedBoard? && GivensConsistent(board) ==> Solved(reply.board)
  {
    var valid := ValidateBoard(board);
    if !valid {
      return InvalidFormat;
    }
    var copy := new int[9, 9]((i, j) requires 0 <= i < 9 && 0 <= j < 9 => board[i][j]);
    Extensionality(Rows(copy), board);
    var solved := Solve(copy);
    if solved {
      if GivensConsistent(board) {
        ConsistentCompletionSolved(board, Rows(copy));
      }
      return SolvedBoard(Rows(copy));
    }
    return NoSolution;
  }
}
