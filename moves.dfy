/** Where a move comes from: the computer's pick among the empty cells
    (main.py:216-227) and one attempt at reading a human's move from a line
    of text (main.py:123-152). */
module MoveSource {
  import opened Results
  import opened Board
  import opened Text

  /** The loop of computer_move_random that lists the empty cells, row by
      row and within a row column by column. */
  method CollectEmptyCells(b: array2<Cell>) returns (cells: seq<Pos>)
    requires b.Length0 == Size && b.Length1 == Size
    ensures cells == EmptyCells(Snapshot(b))
  {
    ghost var g := Snapshot(b);
    ghost var k := 0;
    cells := [];
    for row := 0 to Size
      invariant k == row * Size && cells == EmptyBefore(g, k)
    {
      for col := 0 to Size
        invariant k == row * Size + col && cells == EmptyBefore(g, k)
      {
        EmptyBeforeStep(g, k, row, col);
        assert b[row, col] == g[row][col];
        if b[row, col] == Empty {
          cells := cells + [(row, col)];
        }
        k := k + 1;
      }
    }
  }

  /** computer_move_random: any one of the listed empty cells (the program
      draws it with random.choice), or (0, 0) when none is left. The move is
      on the board and its cell is empty whenever the board is not full. */
  method ComputerMoveRandom(b: array2<Cell>) returns (move: Pos)
    requires b.Length0 == Size && b.Length1 == Size
    ensures EmptyCells(Snapshot(b)) != [] ==> move in EmptyCells(Snapshot(b))
    ensures EmptyCells(Snapshot(b)) == [] ==> move == (0, 0)
    ensures !BoardFull(Snapshot(b)) ==> InRange(move.0, move.1) && b[move.0, move.1] == Empty
  {
    var cells := CollectEmptyCells(b);
    EmptyCellsSpec(Snapshot(b));
    FullIffNoEmptyCells(Snapshot(b));
    if cells != [] {
      assert cells[0] in cells;
      move :| move in cells;
    } else {
      move := (0, 0);
    }
  }

  /** When exactly one cell is empty the computer's move is that cell. */
  lemma OnlyEmptyCellIsChosen(g: Grid, move: Pos)
    requires |EmptyCells(g)| == 1 && move in EmptyCells(g)
    ensures InRange(move.0, move.1) && g[move.0][move.1] == Empty
    ensures forall p: Pos | InRange(p.0, p.1) && g[p.0][p.1] == Empty :: p == move
  {
    EmptyCellsSpec(g);
  }

  /** Why an attempt at reading a move was refused: not exactly two words,
      a word that is not an integer (ValueError), or a number outside 1..3. */
  datatype MoveError = WrongWordCount | NotNumbers | OutOfBounds

  /** One pass of read_move's loop: strip, split on whitespace, convert both
      words to integers, make them zero-based and check the range. */
  function ReadMove(line: string): (r: Result<Pos, MoveError>)
    ensures r.Ok? ==> InRange(r.value.0, r.value.1)
    ensures r.Ok? ==> var words := Split(Strip(line));
      |words| == 2 && ParseInt(words[0]) == Some(r.value.0 + 1) && ParseInt(words[1]) == Some(r.value.1 + 1)
    ensures r.Ok? <==> var words := Split(Strip(line));
      && |words| == 2 && ParseInt(words[0]).Some? && ParseInt(words[1]).Some?
      && 1 <= ParseInt(words[0]).value <= Size && 1 <= ParseInt(words[1]).value <= Size
    ensures r == Err(WrongWordCount) <==> |Split(Strip(line))| != 2
    ensures r == Err(NotNumbers) <==> var words := Split(Strip(line));
      |words| == 2 && (ParseInt(words[0]).None? || ParseInt(words[1]).None?)
  {
    var words := Split(Strip(line));
    if |words| != 2 then Err(WrongWordCount)
    else match (ParseInt(words[0]), ParseInt(words[1]))
      case (Some(r), Some(c)) =>
        var row, col := r - 1, c - 1;
        if row < 0 || row >= Size || col < 0 || col >= Size then Err(OutOfBounds)
        else Ok((row, col))
      case _ => Err(NotNumbers)
  }

  /** Two numbers written in decimal and separated by a space, as a player
      types a move. */
  function FormatMove(r: int, c: int): string {
    Join([ShowInt(r), ShowInt(c)])
  }

  /** The decimal form of an integer is one word. */
  lemma ShowIntIsWord(n: int)
    ensures ShowInt(n) != [] && NoSpace(ShowInt(n))
  {
  }

  /** The line typed for two integers splits into their decimal forms. */
  lemma {:induction false} FormatMoveWords(r: int, c: int)
    ensures Split(Strip(FormatMove(r, c))) == [ShowInt(r), ShowInt(c)]
  {
    var line := FormatMove(r, c);
    var words := [ShowInt(r), ShowInt(c)];
    ShowIntIsWord(r);
    ShowIntIsWord(c);
    SplitJoin(words);
    assert IsStripped(line);
    StripStripped(line);
  }

  /** A line holding two integers is read as the zero-based move exactly
      when both lie in 1..3, and is refused as out of range otherwise. */
  lemma {:induction false} ReadFormattedMove(r: int, c: int)
    ensures ReadMove(FormatMove(r, c))
      == if 1 <= r <= Size && 1 <= c <= Size then Ok((r - 1, c - 1)) else Err(OutOfBounds)
  {
    FormatMoveWords(r, c);
    ParseShowInt(r);
    ParseShowInt(c);
  }

  /** Every on-board move, typed 1-based, is read back as itself. */
  lemma {:induction false} ReadMoveRoundTrip(p: Pos)
    requires InRange(p.0, p.1)
    ensures ReadMove(FormatMove(p.0 + 1, p.1 + 1)) == Ok(p)
  {
    ReadFormattedMove(p.0 + 1, p.1 + 1);
  }

  /** "4 1" is refused as out of range on the 3x3 board. */
  lemma RowFourRefused()
    ensures ReadMove("4 1") == Err(OutOfBounds)
  {
    assert ShowInt(4) == "4" && ShowInt(1) == "1";
    assert FormatMove(4, 1) == "4 1";
    ReadFormattedMove(4, 1);
  }
}
