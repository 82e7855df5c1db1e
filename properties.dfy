/** What a successful solve means for the puzzle as a whole. */
module Properties {
  import opened Grid
  import opened Validator
  import opened Solver

  /** Every cell holds a digit 1..9 that none of its peers holds. */
  predicate Solved(h: seq<seq<int>>)
    requires Shaped(h)
  {
    forall i, j :: 0 <= i < 9 && 0 <= j < 9 ==> 1 <= h[i][j] <= 9 && CanPlace(h, h[i][j], i, j)
  }

  /** No given digit conflicts with another given digit. */
  predicate GivensConsistent(g: seq<seq<int>>)
    requires Shaped(g)
  {
    forall i, j :: 0 <= i < 9 && 0 <= j < 9 && g[i][j] != 0 ==> CanPlace(g, g[i][j], i, j)
  }

  /** A board with no empty cell is returned at once, unchanged, whatever its
      contents, even when its digits conflict. */
  lemma FullBoardAccepted(g: seq<seq<int>>)
    requires Shaped(g)
    requires forall i, j :: InRange(i, j) ==> g[i][j] != 0
    ensures Search(g) == Some(g)
    ensures Solvable(g)
  {
    assert Completion(g, g);
  }

  /** With consistent givens (each 1..9), any completion, in particular the
      board `solve` returns, is a fully solved Sudoku. */
  lemma {:induction false} ConsistentCompletionSolved(g: seq<seq<int>>, h: seq<seq<int>>)
    requires Shaped(g) && GivensConsistent(g)
    requires forall i, j :: InRange(i, j) ==> 0 <= g[i][j] <= 9
    requires Completion(g, h)
    ensures Solved(h)
  {
    forall i, j | 0 <= i < 9 && 0 <= j < 9 && g[i][j] != 0
      ensures CanPlace(h, h[i][j], i, j)
    {
      forall x, y | 0 <= x < 9 && 0 <= y < 9 && Peer(i, j, x, y)
        ensures h[x][y] != h[i][j]
      {
        if g[x][y] == 0 {
          assert CanPlace(h, h[x][y], x, y) && Peer(x, y, i, j);
        } else {
          assert CanPlace(g, g[i][j], i, j);
        }
      }
    }
  }

  /** The digits 1..n. */
  function DigitsUpTo(n: nat): (ds: set<int>)
    ensures forall d :: d in ds <==> 1 <= d <= n
    ensures |ds| == n
  {
    if n == 0 then {} else DigitsUpTo(n - 1) + {n}
  }

  /** n distinct values drawn from a set of n values take every value. */
  lemma {:induction false} Pigeonhole(s: seq<int>, values: set<int>)
    requires |s| == |values|
    requires forall k :: 0 <= k < |s| ==> s[k] in values
    requires forall k, l :: 0 <= k < l < |s| ==> s[k] != s[l]
    ensures forall v :: v in values ==> v in s
  {
    if |s| > 0 {
      var rest := values - {s[0]};
      assert |rest| == |values| - 1;
      forall k | 1 <= k < |s|
        ensures s[k] in rest
      {
        assert s[0] != s[k];
      }
      Pigeonhole(s[1..], rest);
      forall v | v in values
        ensures v in s
      {
        if v != s[0] {
          assert v in s[1..];
        }
      }
    }
  }

  /** Row r, column r and box r (boxes numbered row-major) as sequences. */
  function RowOf(h: seq<seq<int>>, r: int): seq<int>
    requires Shaped(h) && 0 <= r < 9
  {
    h[r]
  }

  function ColumnOf(h: seq<seq<int>>, c: int): seq<int>
    requires Shaped(h) && 0 <= c < 9
  {
    seq(9, i requires 0 <= i < 9 => h[i][c])
  }

  function BoxOf(h: seq<seq<int>>, b: int): seq<int>
    requires Shaped(h) && 0 <= b < 9
  {
    seq(9, k requires 0 <= k < 9 => h[BoxCell(b, k).0][BoxCell(b, k).1])
  }

  /** Each digit 1..9 exactly once: nine digits, pairwise different, and every
      digit among them. */
  predicate EachDigitOnce(s: seq<int>)
  {
    && |s| == 9
    && (forall k :: 0 <= k < 9 ==> 1 <= s[k] <= 9)
    && (forall k, l :: 0 <= k < l < 9 ==> s[k] != s[l])
    && (forall d :: 1 <= d <= 9 ==> d in s)
  }

  lemma DistinctDigitsAreAll(s: seq<int>)
    requires |s| == 9
    requires forall k :: 0 <= k < 9 ==> 1 <= s[k] <= 9
    requires forall k, l :: 0 <= k < l < 9 ==> s[k] != s[l]
    ensures EachDigitOnce(s)
  {
    Pigeonhole(s, DigitsUpTo(9));
  }

  /** In a solved grid every row, every column and every box holds each
      digit 1..9 exactly once. */
  lemma SolvedRow(h: seq<seq<int>>, r: int)
    requires Shaped(h) && Solved(h) && 0 <= r < 9
    ensures EachDigitOnce(RowOf(h, r))
  {
    forall k, l | 0 <= k < l < 9
      ensures h[r][k] != h[r][l]
    {
      assert CanPlace(h, h[r][k], r, k) && Peer(r, k, r, l);
    }
    DistinctDigitsAreAll(RowOf(h, r));
  }

  lemma SolvedColumn(h: seq<seq<int>>, c: int)
    requires Shaped(h) && Solved(h) && 0 <= c < 9
    ensures EachDigitOnce(ColumnOf(h, c))
  {
    var s := ColumnOf(h, c);
    forall k, l | 0 <= k < l < 9
      ensures s[k] != s[l]
    {
      assert CanPlace(h, h[k][c], k, c) && Peer(k, c, l, c);
    }
    DistinctDigitsAreAll(s);
  }

  /** The k-th cell of box b, counting row-major inside the box. */
  function BoxCell(b: int, k: int): (p: Pos)
    requires 0 <= b < 9 && 0 <= k < 9
    ensures InRange(p.0, p.1) && p.0 / 3 == b / 3 && p.1 / 3 == b % 3
  {
    (3 * (b / 3) + k / 3, 3 * (b % 3) + k % 3)
  }

  lemma BoxCellsDiffer(b: int, k: int, l: int)
    requires 0 <= b < 9 && 0 <= k < l < 9
    ensures BoxCell(b, k) != BoxCell(b, l)
  {
    assert k == 3 * (k / 3) + k % 3 && l == 3 * (l / 3) + l % 3;
  }

  lemma SolvedBox(h: seq<seq<int>>, b: int)
    requires Shaped(h) && Solved(h) && 0 <= b < 9
    ensures EachDigitOnce(BoxOf(h, b))
  {
    var s := BoxOf(h, b);
    forall k | 0 <= k < 9
      ensures s[k] == h[BoxCell(b, k).0][BoxCell(b, k).1]
    {
    }
    forall k, l | 0 <= k < l < 9
      ensures s[k] != s[l]
    {
      var p, q := BoxCell(b, k), BoxCell(b, l);
      BoxCellsDiffer(b, k, l);
      assert CanPlace(h, h[p.0][p.1], p.0, p.1) && Peer(p.0, p.1, q.0, q.1);
    }
    DistinctDigitsAreAll(s);
  }
}
