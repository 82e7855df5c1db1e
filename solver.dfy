/** Solver Engine (`solve`): depth-first backtracking over the empty cells. */
module Solver {
  import opened Grid
  import opened Scanner
  import opened Validator

  /** h completes g: h keeps every non-empty cell of g, and every cell that is
      empty in g holds a digit 1..9 that no peer of it holds in h. Cells that
      are given in g are not checked against each other, as `solve` does not
      check them either. */
  ghost predicate Completion(g: seq<seq<int>>, h: seq<seq<int>>)
    requires Shaped(g)
  {
    && Shaped(h)
    && forall i, j :: InRange(i, j) ==>
         && (g[i][j] != 0 ==> h[i][j] == g[i][j])
         && (g[i][j] == 0 ==> 1 <= h[i][j] <= 9 && CanPlace(h, h[i][j], i, j))
  }

  ghost predicate Solvable(g: seq<seq<int>>)
    requires Shaped(g)
  {
    exists h :: Completion(g, h)
  }

  /** The outcome of `solve` on a grid: Some(the final board) when it returns
      True, None when it returns False. The search order is the source's:
      the first empty cell in row-major order, digits 1..9 ascending. What a
      result means is stated by SearchSound, SearchComplete and
      SearchDecides. */
  function Search(g: seq<seq<int>>): Option<seq<seq<int>>>
    requires Shaped(g)
    decreases |EmptyCells(g)|, 1, 0
  {
    match FirstEmpty(g)
    case None => Some(g)
    case Some(p) => TryDigits(g, p.0, p.1, 1)
  }

  /** The `for num in range(1, 10)` loop of `solve` at the empty cell (r, c),
      from digit num on. */
  function TryDigits(g: seq<seq<int>>, r: int, c: int, num: int): Option<seq<seq<int>>>
    requires Shaped(g) && InRange(r, c) && g[r][c] == 0 && 1 <= num <= 10
    decreases |EmptyCells(g)|, 0, 10 - num
  {
    if num == 10 then None
    else if CanPlace(g, num, r, c) then
      FillShrinks(g, r, c, num);
      match Search(Place(g, r, c, num))
      case Some(h) => Some(h)
      case None => TryDigits(g, r, c, num + 1)
    else TryDigits(g, r, c, num + 1)
  }

  /** `solve`: fills the board in place. On True the board is the solution the
      search finds; on False every tentative placement has been reset to 0,
      so the board is exactly what it was on entry. */
  method Solve(board: array2<int>) returns (ok: bool)
    requires board.Length0 == 9 && board.Length1 == 9
    modifies board
    ensures ok == Search(old(Rows(board))).Some?
    ensures ok ==> Rows(board) == Search(old(Rows(board))).value
    ensures !ok ==> Rows(board) == old(Rows(board))
    ensures ok <==> Solvable(old(Rows(board)))
    ensures ok ==> Completion(old(Rows(board)), Rows(board))
    ensures forall i, j :: InRange(i, j) && old(board[i, j]) != 0 ==> board[i, j] == old(board[i, j])
    decreases |EmptyCells(Rows(board))|
  {
    ghost var g := Rows(board);
    SearchDecides(g);
    var empty := FindEmpty(board);
    if empty.None? {
      return true;
    }
    var (row, col) := empty.value;
    for num := 1 to 10
      invariant Rows(board) == g
      invariant TryDigits(g, row, col, num) == TryDigits(g, row, col, 1)
    {
      var valid := IsValid(board, num, (row, col));
      if valid {
        board[row, col] := num;
        Extensionality(Rows(board), Place(g, row, col, num));
        FillShrinks(g, row, col, num);
        var solved := Solve(board);
        if solved {
          return true;
        }
        board[row, col] := 0;
        Extensionality(Rows(board), g);
      }
    }
    return false;
  }

  /** The digit a completion puts at an empty cell is one `is_valid` accepts. */
  lemma CompletionDigitFits(g: seq<seq<int>>, h: seq<seq<int>>, r: int, c: int)
    requires Shaped(g) && InRange(r, c) && g[r][c] == 0 && Completion(g, h)
    ensures CanPlace(g, h[r][c], r, c)
  {
    forall i, j | 0 <= i < 9 && 0 <= j < 9 && Peer(r, c, i, j)
      ensures g[i][j] != h[r][c]
    {
      assert CanPlace(h, h[r][c], r, c);
      if g[i][j] != 0 {
        assert h[i][j] == g[i][j];
      }
    }
  }

  /** A completion of g is still a completion once (r, c) holds its digit. */
  lemma CompletionAfterPlace(g: seq<seq<int>>, h: seq<seq<int>>, r: int, c: int)
    requires Shaped(g) && InRange(r, c) && g[r][c] == 0 && Completion(g, h)
    ensures Completion(Place(g, r, c, h[r][c]), h)
  {
  }

  /** Placing an accepted digit and completing the rest completes g: the new
      digit conflicts neither with given cells (`is_valid` checked them) nor
      with cells filled later (each of those was checked against it). */
  lemma CompletionBeforePlace(g: seq<seq<int>>, h: seq<seq<int>>, r: int, c: int, num: int)
    requires Shaped(g) && InRange(r, c) && g[r][c] == 0 && 1 <= num <= 9
    requires CanPlace(g, num, r, c)
    requires Completion(Place(g, r, c, num), h)
    ensures Completion(g, h)
  {
    var g' := Place(g, r, c, num);
    forall i, j | 0 <= i < 9 && 0 <= j < 9 && Peer(r, c, i, j)
      ensures h[i][j] != num
    {
      if g[i][j] == 0 {
        assert g'[i][j] == 0;
        assert CanPlace(h, h[i][j], i, j);
        assert Peer(i, j, r, c);
        assert h[r][c] == num;
      } else {
        assert h[i][j] == g'[i][j] == g[i][j];
      }
    }
  }

  /** Soundness: whatever the search returns completes its input. */
  lemma {:induction false} SearchSound(g: seq<seq<int>>)
    requires Shaped(g) && Search(g).Some?
    ensures Completion(g, Search(g).value)
    decreases |EmptyCells(g)|, 1, 0, 0
  {
    match FirstEmpty(g)
    case None =>
    case Some(p) => TryDigitsSound(g, p.0, p.1, 1);
  }

  lemma {:induction false} TryDigitsSound(g: seq<seq<int>>, r: int, c: int, num: int)
    requires Shaped(g) && InRange(r, c) && g[r][c] == 0 && 1 <= num <= 10
    requires TryDigits(g, r, c, num).Some?
    ensures Completion(g, TryDigits(g, r, c, num).value)
    decreases |EmptyCells(g)|, 0, 10 - num, 1
  {
    if CanPlace(g, num, r, c) && Search(Place(g, r, c, num)).Some? {
      PlacedSound(g, r, c, num);
    } else {
      NextDigit(g, r, c, num);
      TryDigitsSound(g, r, c, num + 1);
    }
  }

  /** When digit num is rejected or its branch fails, the loop moves on. */
  lemma NextDigit(g: seq<seq<int>>, r: int, c: int, num: int)
    requires Shaped(g) && InRange(r, c) && g[r][c] == 0 && 1 <= num <= 9
    requires !(CanPlace(g, num, r, c) && Search(Place(g, r, c, num)).Some?)
    ensures TryDigits(g, r, c, num) == TryDigits(g, r, c, num + 1)
  {
  }

  /** The step of TryDigitsSound where digit num is kept. */
  lemma {:induction false} PlacedSound(g: seq<seq<int>>, r: int, c: int, num: int)
    requires Shaped(g) && InRange(r, c) && g[r][c] == 0 && 1 <= num <= 9
    requires CanPlace(g, num, r, c) && Search(Place(g, r, c, num)).Some?
    ensures TryDigits(g, r, c, num) == Search(Place(g, r, c, num))
    ensures Completion(g, Search(Place(g, r, c, num)).value)
    decreases |EmptyCells(g)|, 0, 10 - num, 0
  {
    var g' := Place(g, r, c, num);
    FillShrinks(g, r, c, num);
    SearchSound(g');
    CompletionBeforePlace(g, Search(g').value, r, c, num);
  }

  /** Completeness: when a completion exists, the search does not fail. */
  lemma {:induction false} SearchComplete(g: seq<seq<int>>, h: seq<seq<int>>)
    requires Shaped(g) && Completion(g, h)
    ensures Search(g).Some?
    decreases |EmptyCells(g)|, 1, 0, 0
  {
    match FirstEmpty(g)
    case None =>
    case Some(p) => TryDigitsComplete(g, h, p.0, p.1, 1);
  }

  lemma {:induction false} TryDigitsComplete(g: seq<seq<int>>, h: seq<seq<int>>, r: int, c: int, num: int)
    requires Shaped(g) && InRange(r, c) && g[r][c] == 0 && Completion(g, h)
    requires 1 <= num <= h[r][c]
    ensures TryDigits(g, r, c, num).Some?
    decreases |EmptyCells(g)|, 0, 10 - num, 0
  {
    if num == h[r][c] {
      CompletionDigitFits(g, h, r, c);
      CompletionAfterPlace(g, h, r, c);
      FillShrinks(g, r, c, num);
      SearchComplete(Place(g, r, c, num), h);
    } else if CanPlace(g, num, r, c) && Search(Place(g, r, c, num)).Some? {
    } else {
      TryDigitsComplete(g, h, r, c, num + 1);
    }
  }

  /** The search succeeds exactly when the grid is solvable, and then returns
      a completion of it. */
  lemma SearchDecides(g: seq<seq<int>>)
    requires Shaped(g)
    ensures Search(g).Some? <==> Solvable(g)
    ensures Search(g).Some? ==> Completion(g, Search(g).value)
  {
    if Search(g).Some? {
      SearchSound(g);
    }
    if Solvable(g) {
      var h :| Completion(g, h);
      SearchComplete(g, h);
    }
  }
}
