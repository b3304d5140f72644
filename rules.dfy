/** Win and tie detection over a board snapshot, and the turn switch
    (main.py:156-193). */
module Rules {
  import opened Board

  /** Every cell of row r holds s. */
  predicate RowAll(g: Grid, s: Symbol, r: int)
    requires 0 <= r < Size
  {
    forall c | 0 <= c < Size :: g[r][c] == Mark(s)
  }

  /** Every cell of column c holds s. */
  predicate ColumnAll(g: Grid, s: Symbol, c: int)
    requires 0 <= c < Size
  {
    forall r | 0 <= r < Size :: g[r][c] == Mark(s)
  }

  /** The cells [i][i] all hold s. */
  predicate MainDiagonalAll(g: Grid, s: Symbol) {
    forall i | 0 <= i < Size :: g[i][i] == Mark(s)
  }

  /** The cells [i][Size-1-i] all hold s. */
  predicate AntiDiagonalAll(g: Grid, s: Symbol) {
    forall i | 0 <= i < Size :: g[i][Size - 1 - i] == Mark(s)
  }

  /** has_winner: the rows, then the columns, then the two diagonals. A
      symbol with a line has a mark on the board. */
  predicate HasWinner(g: Grid, s: Symbol): (won: bool)
    ensures won ==> exists r, c | InRange(r, c) :: g[r][c] == Mark(s)
  {
    LineHasMark(g, s);
    (exists r | 0 <= r < Size :: RowAll(g, s, r))
    || (exists c | 0 <= c < Size :: ColumnAll(g, s, c))
    || MainDiagonalAll(g, s)
    || AntiDiagonalAll(g, s)
  }

  /** Each of the four kinds of line holds a mark of its symbol. */
  lemma LineHasMark(g: Grid, s: Symbol)
    ensures (exists r | 0 <= r < Size :: RowAll(g, s, r)) ==> exists r, c | InRange(r, c) :: g[r][c] == Mark(s)
    ensures (exists c | 0 <= c < Size :: ColumnAll(g, s, c)) ==> exists r, c | InRange(r, c) :: g[r][c] == Mark(s)
    ensures MainDiagonalAll(g, s) || AntiDiagonalAll(g, s) ==> g[1][1] == Mark(s)
  {
    if r :| 0 <= r < Size && RowAll(g, s, r) {
      assert g[r][0] == Mark(s);
    }
    if c :| 0 <= c < Size && ColumnAll(g, s, c) {
      assert g[0][c] == Mark(s);
    }
  }

  /** The eight lines of three cells on which a game can be won, written out
      position by position. */
  const WinningLines: seq<seq<Pos>> := [
    [(0, 0), (0, 1), (0, 2)], [(1, 0), (1, 1), (1, 2)], [(2, 0), (2, 1), (2, 2)],
    [(0, 0), (1, 0), (2, 0)], [(0, 1), (1, 1), (2, 1)], [(0, 2), (1, 2), (2, 2)],
    [(0, 0), (1, 1), (2, 2)], [(0, 2), (1, 1), (2, 0)]
  ]

  /** Every position of the line holds s. */
  predicate Completes(g: Grid, s: Symbol, line: seq<Pos>) {
    forall k | 0 <= k < |line| :: InRange(line[k].0, line[k].1) && At(g, line[k]) == Mark(s)
  }

  /** has_winner holds exactly when one of the eight lines is completed by s:
      the three rows, the three columns, the main diagonal and the
      anti-diagonal, and no other line. */
  lemma WinnerIffLine(g: Grid, s: Symbol)
    ensures HasWinner(g, s) <==> exists i | 0 <= i < |WinningLines| :: Completes(g, s, WinningLines[i])
  {
    if HasWinner(g, s) {
      if r :| 0 <= r < Size && RowAll(g, s, r) {
        assert Completes(g, s, WinningLines[r]);
      } else if c :| 0 <= c < Size && ColumnAll(g, s, c) {
        assert Completes(g, s, WinningLines[3 + c]);
      } else if MainDiagonalAll(g, s) {
        assert Completes(g, s, WinningLines[6]);
      } else {
        assert Completes(g, s, WinningLines[7]);
      }
    }
    if i :| 0 <= i < |WinningLines| && Completes(g, s, WinningLines[i]) {
      var line := WinningLines[i];
      assert At(g, line[0]) == Mark(s) && At(g, line[1]) == Mark(s) && At(g, line[2]) == Mark(s);
      if i < 3 {
        assert RowAll(g, s, i);
      } else if i < 6 {
        assert ColumnAll(g, s, i - 3);
      } else if i == 6 {
        assert MainDiagonalAll(g, s);
      } else {
        assert AntiDiagonalAll(g, s);
      }
    }
  }

  /** is_tie: the board is full and neither symbol has a line. On a tied
      board no empty cell is left to move to. */
  predicate IsTie(g: Grid, a: Symbol, b: Symbol): (tie: bool)
    ensures tie ==> EmptyCells(g) == []
  {
    if BoardFull(g) then
      FullIffNoEmptyCells(g);
      !(HasWinner(g, a) || HasWinner(g, b))
    else
      false
  }

  /** A tie is declared only on a board with all nine cells filled and no
      winner, and every such board is a tie. */
  lemma TieIffFullWithoutWinner(g: Grid, a: Symbol, b: Symbol)
    ensures IsTie(g, a, b) <==> FilledCount(g) == Size * Size && !HasWinner(g, a) && !HasWinner(g, b)
  {
    FullIffNoEmptyCells(g);
  }

  /** No symbol has a line on the empty board, and it is not a tie. */
  lemma EmptyBoardUndecided(s: Symbol, a: Symbol, b: Symbol)
    ensures !HasWinner(EmptyGrid, s) && !IsTie(EmptyGrid, a, b)
  {
    forall i | 0 <= i < Size
      ensures !RowAll(EmptyGrid, s, i) && !ColumnAll(EmptyGrid, s, i)
    {
      assert EmptyGrid[i][0] == Empty && EmptyGrid[0][i] == Empty;
    }
    assert EmptyGrid[0][0] == Empty && EmptyGrid[0][2] == Empty;
  }

  /** Placing s on an empty cell cannot give a different symbol t a line:
      the reason the game loop checks only the mover's symbol. */
  lemma {:induction false} MoveCannotMakeOpponentWin(g: Grid, row: int, col: int, s: Symbol, t: Symbol)
    requires InRange(row, col) && g[row][col] == Empty
    requires s != t && !HasWinner(g, t)
    ensures !HasWinner(Update(g, row, col, Mark(s)), t)
  {
    var g' := Update(g, row, col, Mark(s));
    if HasWinner(g', t) {
      WinnerIffLine(g', t);
      var i :| 0 <= i < |WinningLines| && Completes(g', t, WinningLines[i]);
      assert Completes(g, t, WinningLines[i]);
      WinnerIffLine(g, t);
      assert false;
    }
  }

  /** One accepted move of s from a board on which neither s nor the other
      symbol t has a line: one more cell is filled, t still has no line,
      and unless s now has a line or the board is full the game goes on. */
  lemma AcceptedMove(g: Grid, row: int, col: int, s: Symbol, t: Symbol)
    requires Place(g, row, col, s).0 == Placed
    requires s != t && !HasWinner(g, t)
    ensures var g' := Place(g, row, col, s).1;
      && FilledCount(g') == FilledCount(g) + 1
      && !HasWinner(g', t)
      && (BoardFull(g') <==> FilledCount(g') == Size * Size)
  {
    PlaceFillsOne(g, row, col, s);
    MoveCannotMakeOpponentWin(g, row, col, s, t);
    FullIffNoEmptyCells(Place(g, row, col, s).1);
  }

  /** switch_turn: 1 - turn_idx. */
  function SwitchTurn(i: int): (j: int)
    ensures i == 0 ==> j == 1
    ensures i == 1 ==> j == 0
  {
    1 - i
  }

  /** Switching twice gives back the same player. */
  lemma SwitchTurnInvolution(i: int)
    ensures SwitchTurn(SwitchTurn(i)) == i
  {
  }
}
