/** The 3x3 playing grid of main.py: cells, the row-major list of empty
    positions, the occupancy predicates, and placing a symbol in place. */
module Board {
  import opened Results

  /** The side length of the board (BOARD_SIZE). */
  const Size: int := 3

  /** A player's symbol, a string as in the program. */
  type Symbol = string

  /** A cell of the board. The program stores the integer 0 for an empty
      cell and the symbol string otherwise; a constructor of its own keeps
      "empty" apart from every symbol. */
  datatype Cell = Empty | Mark(symbol: Symbol)

  /** A zero-based (row, column) pair. */
  type Pos = (int, int)

  predicate InRange(row: int, col: int) {
    0 <= row < Size && 0 <= col < Size
  }

  /** A value snapshot of the board: Size rows of Size cells each. */
  type Grid = g: seq<seq<Cell>> | |g| == Size && forall r | 0 <= r < Size :: |g[r]| == Size
    witness [[Empty, Empty, Empty], [Empty, Empty, Empty], [Empty, Empty, Empty]]

  const EmptyGrid: Grid := [[Empty, Empty, Empty], [Empty, Empty, Empty], [Empty, Empty, Empty]]

  /** The cell at position p. */
  function At(g: Grid, p: Pos): Cell
    requires InRange(p.0, p.1)
  {
    g[p.0][p.1]
  }

  /** Row-major numbering of the positions: 0 .. Size * Size - 1. */
  function IndexOf(p: Pos): int {
    p.0 * Size + p.1
  }

  function PosOf(k: int): (p: Pos)
    requires 0 <= k < Size * Size
    ensures InRange(p.0, p.1) && IndexOf(p) == k
  {
    (k / Size, k % Size)
  }

  lemma PosOfIndexOf(p: Pos)
    requires InRange(p.0, p.1)
    ensures 0 <= IndexOf(p) < Size * Size && PosOf(IndexOf(p)) == p
  {
  }

  /** The grid with one cell replaced. */
  function Update(g: Grid, row: int, col: int, c: Cell): (g': Grid)
    requires InRange(row, col)
    ensures g'[row][col] == c
    ensures forall r, k | InRange(r, k) && (r != row || k != col) :: g'[r][k] == g[r][k]
  {
    g[row := g[row][col := c]]
  }

  /** Two grids that agree on every cell are equal. */
  lemma GridsEqual(g: Grid, h: Grid)
    requires forall r, c | InRange(r, c) :: g[r][c] == h[r][c]
    ensures g == h
  {
    forall r | 0 <= r < Size
      ensures g[r] == h[r]
    {
      assert forall c | 0 <= c < Size :: g[r][c] == h[r][c];
    }
  }

  /** The value held by a board array. */
  function Snapshot(b: array2<Cell>): (g: Grid)
    requires b.Length0 == Size && b.Length1 == Size
    reads b
    ensures forall r, c {:trigger b[r, c]} | InRange(r, c) :: g[r][c] == b[r, c]
  {
    [[b[0, 0], b[0, 1], b[0, 2]],
     [b[1, 0], b[1, 1], b[1, 2]],
     [b[2, 0], b[2, 1], b[2, 2]]]
  }

  /** board_full: no cell is empty. A full board is never the empty one. */
  predicate BoardFull(g: Grid): (full: bool)
    ensures full ==> !BoardEmpty(g)
  {
    assert EmptyGrid[0][0] == Empty;
    forall r, c | 0 <= r < Size && 0 <= c < Size :: g[r][c] != Empty
  }

  /** board_empty: every cell is empty, which holds for the fresh board and
      for no other. */
  predicate BoardEmpty(g: Grid): (empty: bool)
    ensures empty <==> g == EmptyGrid
  {
    if forall r, c | 0 <= r < Size && 0 <= c < Size :: g[r][c] == Empty then
      GridsEqual(g, EmptyGrid);
      true
    else
      false
  }

  /** The empty positions among the first k positions in row-major order:
      the list that the computer's move is drawn from. */
  function EmptyBefore(g: Grid, k: int): (cells: seq<Pos>)
    requires 0 <= k <= Size * Size
    ensures |cells| <= k
    decreases k
  {
    if k == 0 then []
    else EmptyBefore(g, k - 1) + (if At(g, PosOf(k - 1)) == Empty then [PosOf(k - 1)] else [])
  }

  /** One more position in row-major order: the list grows by position k
      exactly when its cell is empty. */
  lemma EmptyBeforeStep(g: Grid, k: int, row: int, col: int)
    requires InRange(row, col) && k == row * Size + col
    ensures 0 <= k < Size * Size
    ensures EmptyBefore(g, k + 1) == EmptyBefore(g, k) + (if g[row][col] == Empty then [(row, col)] else [])
  {
    assert PosOf(k) == (row, col);
  }

  /** The empty positions of the whole board in row-major order. (The bound
      is written |g| * |g| rather than as a constant so that the verifier
      does not unroll the recursion for every grid it sees.) */
  function EmptyCells(g: Grid): (cells: seq<Pos>)
    ensures forall p: Pos :: p in cells <==> InRange(p.0, p.1) && g[p.0][p.1] == Empty
  {
    EmptyBeforeMembers(g, |g| * |g|);
    EmptyBefore(g, |g| * |g|)
  }

  /** The number of occupied cells. */
  function FilledCount(g: Grid): (n: nat)
    ensures n <= Size * Size
  {
    Size * Size - |EmptyCells(g)|
  }

  /** The members of EmptyBefore(g, k) are exactly the empty positions
      numbered below k. */
  lemma {:induction false} EmptyBeforeMembers(g: Grid, k: int)
    requires 0 <= k <= Size * Size
    ensures forall p: Pos :: p in EmptyBefore(g, k) <==> InRange(p.0, p.1) && IndexOf(p) < k && At(g, p) == Empty
  {
    if k > 0 {
      EmptyBeforeMembers(g, k - 1);
      forall p: Pos | InRange(p.0, p.1) && IndexOf(p) == k - 1
        ensures p == PosOf(k - 1)
      {
        PosOfIndexOf(p);
      }
    }
  }

  /** EmptyBefore(g, k) lists its positions in strictly increasing row-major order. */
  lemma {:induction false} EmptyBeforeOrdered(g: Grid, k: int)
    requires 0 <= k <= Size * Size
    ensures forall i, j | 0 <= i < j < |EmptyBefore(g, k)| ::
      IndexOf(EmptyBefore(g, k)[i]) < IndexOf(EmptyBefore(g, k)[j])
  {
    if k > 0 {
      EmptyBeforeOrdered(g, k - 1);
      EmptyBeforeMembers(g, k - 1);
    }
  }

  /** The candidate list of computer_move_random holds exactly the empty
      positions, each once, in row-major order. */
  lemma EmptyCellsSpec(g: Grid)
    ensures forall p: Pos :: p in EmptyCells(g) <==> InRange(p.0, p.1) && g[p.0][p.1] == Empty
    ensures forall i, j | 0 <= i < j < |EmptyCells(g)| ::
      IndexOf(EmptyCells(g)[i]) < IndexOf(EmptyCells(g)[j])
  {
    EmptyBeforeMembers(g, Size * Size);
    EmptyBeforeOrdered(g, Size * Size);
  }

  /** The board is full exactly when no empty position is left, that is when
      all nine cells are filled. */
  lemma FullIffNoEmptyCells(g: Grid)
    ensures BoardFull(g) <==> EmptyCells(g) == []
    ensures BoardFull(g) <==> FilledCount(g) == Size * Size
  {
    EmptyBeforeMembers(g, Size * Size);
    if EmptyCells(g) != [] {
      assert EmptyCells(g)[0] in EmptyCells(g);
    }
    if !BoardFull(g) {
      var r, c :| InRange(r, c) && g[r][c] == Empty;
      assert (r, c) in EmptyCells(g);
    }
  }

  /** Every one of the first k positions is empty exactly when all k of them
      are listed. */
  lemma {:induction false} EmptyBeforeAll(g: Grid, k: int)
    requires 0 <= k <= Size * Size
    ensures |EmptyBefore(g, k)| == k <==> forall i | 0 <= i < k :: At(g, PosOf(i)) == Empty
  {
    if k > 0 {
      EmptyBeforeAll(g, k - 1);
    }
  }

  /** The board is empty exactly when no cell is filled. */
  lemma EmptyIffNoneFilled(g: Grid)
    ensures BoardEmpty(g) <==> FilledCount(g) == 0
  {
    EmptyBeforeAll(g, Size * Size);
    if !BoardEmpty(g) {
      var r, c :| InRange(r, c) && g[r][c] != Empty;
      PosOfIndexOf((r, c));
    }
  }

  /** Filling one empty cell removes exactly that position from the list of
      empty positions below k when it is numbered below k. */
  lemma {:induction false} EmptyBeforeAfterFill(g: Grid, row: int, col: int, s: Symbol, k: int)
    requires InRange(row, col) && g[row][col] == Empty
    requires 0 <= k <= Size * Size
    ensures |EmptyBefore(Update(g, row, col, Mark(s)), k)|
            == |EmptyBefore(g, k)| - (if IndexOf((row, col)) < k then 1 else 0)
  {
    if k > 0 {
      EmptyBeforeAfterFill(g, row, col, s, k - 1);
      var p := PosOf(k - 1);
      if p == (row, col) {
      } else {
        assert At(Update(g, row, col, Mark(s)), p) == At(g, p);
      }
    }
  }

  /** Why place_symbol failed, or that it succeeded. The program returns
      True, False (an index outside the board, through the caught
      IndexError) or None (an occupied cell, falling off the end); only
      the first is truthy. */
  datatype PlaceOutcome = Placed | OutOfRange | Occupied

  /** The value-level meaning of place_symbol: the outcome and the board
      afterwards. */
  function Place(g: Grid, row: int, col: int, s: Symbol): (r: (PlaceOutcome, Grid))
    ensures r.0 == Placed <==> InRange(row, col) && g[row][col] == Empty
    ensures r.0 == OutOfRange <==> !InRange(row, col)
    ensures r.0 == Placed ==> r.1[row][col] == Mark(s)
    ensures r.0 == Placed ==> forall i, j | InRange(i, j) && (i != row || j != col) :: r.1[i][j] == g[i][j]
    ensures r.0 != Placed ==> r.1 == g
  {
    if !InRange(row, col) then (OutOfRange, g)
    else if g[row][col] == Empty then (Placed, Update(g, row, col, Mark(s)))
    else (Occupied, g)
  }

  /** An accepted placement fills exactly one more cell; a refused one
      fills none. */
  lemma PlaceFillsOne(g: Grid, row: int, col: int, s: Symbol)
    ensures var (outcome, g') := Place(g, row, col, s);
      FilledCount(g') == FilledCount(g) + (if outcome == Placed then 1 else 0)
  {
    if InRange(row, col) && g[row][col] == Empty {
      EmptyBeforeAfterFill(g, row, col, s, Size * Size);
      PosOfIndexOf((row, col));
    }
  }

  /** make_board: a fresh board with every cell empty. The program's size
      parameter is always left at its default, BOARD_SIZE. */
  method MakeBoard() returns (b: array2<Cell>)
    ensures fresh(b) && b.Length0 == Size && b.Length1 == Size
    ensures Snapshot(b) == EmptyGrid && BoardEmpty(Snapshot(b))
  {
    b := new Cell[Size, Size]((r, c) => Empty);
    GridsEqual(Snapshot(b), EmptyGrid);
  }

  /** The error is_cell_empty raises for a position outside the board. */
  datatype IndexError = IndexError

  /** is_cell_empty: the bounds check first, then the occupancy check. */
  function IsCellEmpty(b: array2<Cell>, row: int, col: int): (r: Result<bool, IndexError>)
    requires b.Length0 == Size && b.Length1 == Size
    reads b
    ensures r.Err? <==> !InRange(row, col)
    ensures r.Ok? ==> (r.value <==> Snapshot(b)[row][col] == Empty)
  {
    if row < 0 || row >= Size || col < 0 || col >= Size then Err(IndexError)
    else Ok(b[row, col] == Empty)
  }

  /** place_symbol: writes the cell in place when it is on the board and
      empty, and otherwise leaves the board as it was. */
  method PlaceSymbol(b: array2<Cell>, row: int, col: int, symbol: Symbol) returns (r: PlaceOutcome)
    requires b.Length0 == Size && b.Length1 == Size
    modifies b
    ensures (r, Snapshot(b)) == Place(old(Snapshot(b)), row, col, symbol)
  {
    ghost var before := Snapshot(b);
    match IsCellEmpty(b, row, col)
    case Err(_) =>
      r := OutOfRange;
    case Ok(empty) =>
      if empty {
        b[row, col] := Mark(symbol);
        r := Placed;
        GridsEqual(Snapshot(b), Update(before, row, col, Mark(symbol)));
      } else {
        r := Occupied;
      }
  }
}
