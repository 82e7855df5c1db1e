/** A concrete puzzle: a solved grid with one cell emptied. */
module Scenarios {
  import opened Grid
  import opened Validator
  import opened Solver

  /** A fully solved Sudoku. */
  function Solution(): (h: seq<seq<int>>)
    ensures Shaped(h)
  {
    [ [1, 2, 3, 4, 5, 6, 7, 8, 9],
      [4, 5, 6, 7, 8, 9, 1, 2, 3],
      [7, 8, 9, 1, 2, 3, 4, 5, 6],
      [2, 3, 4, 5, 6, 7, 8, 9, 1],
      [5, 6, 7, 8, 9, 1, 2, 3, 4],
      [8, 9, 1, 2, 3, 4, 5, 6, 7],
      [3, 4, 5, 6, 7, 8, 9, 1, 2],
      [6, 7, 8, 9, 1, 2, 3, 4, 5],
      [9, 1, 2, 3, 4, 5, 6, 7, 8] ]
  }

  /** The solution with its centre cell emptied; its row, column and box hold
      the other eight digits. */
  function OneHole(): (g: seq<seq<int>>)
    ensures Shaped(g)
  {
    Place(Solution(), 4, 4, 0)
  }

  /** The one-hole puzzle is solvable, so `solve` returns True on it. */
  lemma OneHoleSolvable()
    ensures Solvable(OneHole())
    ensures Search(OneHole()).Some?
  {
    var g, h := OneHole(), Solution();
    assert CanPlace(h, 9, 4, 4);
    assert Completion(g, h);
    SearchDecides(g);
  }

  /** Every cell of the solution holds a digit. */
  lemma SolutionDigits()
    ensures forall i, j :: InRange(i, j) ==> 1 <= Solution()[i][j] <= 9
  {
    var h := Solution();
    forall i | 0 <= i < 9
      ensures forall j :: 0 <= j < 9 ==> 1 <= h[i][j] <= 9
    {
    }
  }

  /** The puzzle has one completion, the solution: the hole can only take 9,
      the one digit its row leaves free. */
  lemma OneHoleUnique(s: seq<seq<int>>)
    requires Completion(OneHole(), s)
    ensures s == Solution()
  {
    var g, h := OneHole(), Solution();
    SolutionDigits();
    forall i, j | InRange(i, j) && (i, j) != (4, 4)
      ensures s[i][j] == h[i][j]
    {
      assert g[i][j] == h[i][j] != 0;
    }
    assert g[4][4] == 0;
    assert CanPlace(s, s[4][4], 4, 4);
    forall j | 0 <= j < 9 && j != 4
      ensures s[4][4] != h[4][j]
    {
      assert Peer(4, 4, 4, j);
    }
    assert 1 <= s[4][4] <= 9;
    assert h[4] == [5, 6, 7, 8, 9, 1, 2, 3, 4];
    assert s[4][4] != h[4][0] && s[4][4] != h[4][1] && s[4][4] != h[4][2] && s[4][4] != h[4][3];
    assert s[4][4] != h[4][5] && s[4][4] != h[4][6] && s[4][4] != h[4][7] && s[4][4] != h[4][8];
    Extensionality(s, h);
  }

  /** The board `solve` returns on the one-hole puzzle is the solution. */
  lemma OneHoleAnswer()
    ensures Search(OneHole()).Some?
    ensures Search(OneHole()).value == Solution()
  {
    OneHoleSolvable();
    SearchSound(OneHole());
    OneHoleUnique(Search(OneHole()).value);
  }
}
