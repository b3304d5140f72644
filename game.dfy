/** The turn controller of main.py: one turn of a player (play_turn,
    main.py:271-286) and the game loop (play_game, main.py:288-323). The
    lines a human types are a finite input stream. Once it runs out,
    read_move keeps asking forever (the end-of-input error is caught by its
    `except Exception`), which the model reports as a stalled game. */
module Game {
  import opened Results
  import opened Board
  import opened Rules
  import opened MoveSource

  /** A player of the session: name, symbol, and whether the computer plays. */
  datatype Player = Player(name: string, symbol: Symbol, isComputer: bool)

  /** How a game ended: the index of the winner, a tie, or the input ran out
      while the human with the given index was to move. */
  datatype GameResult = Win(winner: int) | Tie | Stalled(waiting: int)

  /** The value a retry loop over the lines from position k on returns,
      with the position after the last line it consumed: lines that read
      refuses are skipped and the first accepted one gives the value; None
      when the lines run out first. */
  function FirstAccepted<T, E>(read: string -> Result<T, E>, input: seq<string>, k: nat): (r: (Option<T>, nat))
    requires k <= |input|
    ensures k <= r.1 <= |input|
    ensures r.0.Some? ==> k < r.1
    ensures r.0.None? ==> r.1 == |input|
    decreases |input| - k
  {
    if k == |input| then (None, k)
    else match read(input[k])
      case Ok(v) => (Some(v), k + 1)
      case Err(_) => FirstAccepted(read, input, k + 1)
  }

  /** The value returned is what read gives for the first line it accepts,
      and read refused every line before that one. */
  lemma {:induction false} FirstAcceptedSpec<T, E>(read: string -> Result<T, E>, input: seq<string>, k: nat)
    requires k <= |input|
    ensures var (value, next) := FirstAccepted(read, input, k);
      && (value.Some? ==> read(input[next - 1]) == Ok(value.value))
      && (forall i | k <= i < next - 1 :: read(input[i]).Err?)
      && (value.None? ==> forall i | k <= i < next :: read(input[i]).Err?)
    decreases |input| - k
  {
    if k < |input| && read(input[k]).Err? {
      FirstAcceptedSpec(read, input, k + 1);
    }
  }

  /** The move read_move returns for the lines from position k on. */
  function FirstMove(input: seq<string>, k: nat): (Option<Pos>, nat)
    requires k <= |input|
  {
    FirstAccepted(ReadMove, input, k)
  }

  /** read_move's loop over the lines from position k on. */
  method ReadMoveFrom(input: seq<string>, k: nat) returns (move: Option<Pos>, next: nat)
    requires k <= |input|
    ensures (move, next) == FirstMove(input, k)
  {
    next := k;
    move := None;
    while next < |input|
      invariant k <= next <= |input|
      invariant FirstMove(input, next) == FirstMove(input, k)
      decreases |input| - next
    {
      var attempt := ReadMove(input[next]);
      next := next + 1;
      if attempt.Ok? {
        move := Some(attempt.value);
        return;
      }
    }
  }

  /** The position is on the board and its cell is empty: exactly where
      place_symbol succeeds. */
  predicate Free(g: Grid, m: Pos) {
    InRange(m.0, m.1) && g[m.0][m.1] == Empty
  }

  /** A line that read gives a move for, on a free cell of g. */
  predicate Usable<E>(read: string -> Result<Pos, E>, g: Grid, line: string) {
    read(line).Ok? && Free(g, read(line).value)
  }

  /** Asking from input position k until read gives a move on a free cell
      of g: the move and the position after the last line read, or None
      with all lines read when they run out first. */
  function AskUntilFree<E>(read: string -> Result<Pos, E>, g: Grid, input: seq<string>, k: nat): (r: (Option<Pos>, nat))
    requires k <= |input|
    ensures k <= r.1 <= |input|
    ensures r.0.Some? ==> k < r.1 && Free(g, r.0.value)
    ensures r.0.None? ==> r.1 == |input|
    decreases |input| - k
  {
    match FirstAccepted(read, input, k)
    case (None, next) => (None, next)
    case (Some(m), next) =>
      if Free(g, m) then (Some(m), next)
      else AskUntilFree(read, g, input, next)
  }

  /** The move found is what read gives for the last line read, no earlier
      line from position k on was usable, and no move is found exactly
      when no line left is usable. */
  lemma {:induction false} AskUntilFreeSpec<E>(read: string -> Result<Pos, E>, g: Grid, input: seq<string>, k: nat)
    requires k <= |input|
    ensures var r := AskUntilFree(read, g, input, k);
      && (r.0.Some? ==> Usable(read, g, input[r.1 - 1]) && read(input[r.1 - 1]) == Ok(r.0.value))
      && (forall i | k <= i < r.1 - 1 :: !Usable(read, g, input[i]))
      && (r.0.None? <==> forall i | k <= i < |input| :: !Usable(read, g, input[i]))
    decreases |input| - k
  {
    var r := AskUntilFree(read, g, input, k);
    FirstAcceptedSpec(read, input, k);
    var first := FirstAccepted(read, input, k);
    var next := first.1;
    if first.0.Some? {
      var m := first.0.value;
      if !Free(g, m) {
        assert r == AskUntilFree(read, g, input, next);
        AskUntilFreeSpec(read, g, input, next);
        assert !Usable(read, g, input[next - 1]);
      } else {
        assert Usable(read, g, input[next - 1]);
      }
    }
  }

  /** A human's whole turn from input position k on board g: read_move
      gives a move, and while its cell is taken the human is asked again. */
  function HumanTurn(g: Grid, input: seq<string>, k: nat): (Option<Pos>, nat)
    requires k <= |input|
  {
    AskUntilFree(ReadMove, g, input, k)
  }

  /** A line that read_move accepts and whose cell is free on g. */
  predicate LegalLine(g: Grid, line: string) {
    ReadMove(line).Ok? && Free(g, ReadMove(line).value)
  }

  /** The human's placed move is the one typed on the last line read, no
      earlier line from position k on was both accepted by read_move and
      free on the board, and the turn finds no move exactly when no line
      left is such a line. */
  lemma {:induction false} HumanTurnSpec(g: Grid, input: seq<string>, k: nat)
    requires k <= |input|
    ensures var r := HumanTurn(g, input, k);
      && (r.0.Some? ==> LegalLine(g, input[r.1 - 1]) && ReadMove(input[r.1 - 1]) == Ok(r.0.value))
      && (forall i | k <= i < r.1 - 1 :: !LegalLine(g, input[i]))
      && (r.0.None? <==> forall i | k <= i < |input| :: !LegalLine(g, input[i]))
  {
    assert HumanTurn(g, input, k) == AskUntilFree(ReadMove, g, input, k);
    AskUntilFreeSpec(ReadMove, g, input, k);
  }

  /** When the line at position k is legal, the human's turn plays its move
      after reading that one line. */
  lemma FirstLineLegal(g: Grid, input: seq<string>, k: nat)
    requires k < |input| && LegalLine(g, input[k])
    ensures HumanTurn(g, input, k) == (Some(ReadMove(input[k]).value), k + 1)
  {
    assert FirstAccepted(ReadMove, input, k) == (Some(ReadMove(input[k]).value), k + 1);
  }

  /** On the empty board a human whose first line types any on-board move,
      1-based, plays that move after reading that one line, so the turn
      does not stall. */
  lemma OpeningLinePlayed(p: Pos, input: seq<string>)
    requires InRange(p.0, p.1) && input != [] && input[0] == FormatMove(p.0 + 1, p.1 + 1)
    ensures HumanTurn(EmptyGrid, input, 0) == (Some(p), 1)
  {
    ReadMoveRoundTrip(p);
    FirstLineLegal(EmptyGrid, input, 0);
  }

  /** play_turn: the computer picks an empty cell, a human's move is read
      from the input; then the symbol is placed. `placed` is the truthiness
      of place_symbol's result. */
  method PlayTurn(board: array2<Cell>, player: Player, input: seq<string>, k: nat)
      returns (placed: bool, move: Pos, next: nat)
    requires board.Length0 == Size && board.Length1 == Size
    requires k <= |input|
    modifies board
    ensures k <= next <= |input|
    ensures player.isComputer ==> next == k
    ensures !player.isComputer ==> next == FirstMove(input, k).1
    ensures !player.isComputer && placed ==> FirstMove(input, k).0 == Some(move)
    ensures !player.isComputer ==> (placed <==>
      && FirstMove(input, k).0.Some?
      && Place(old(Snapshot(board)), FirstMove(input, k).0.value.0, FirstMove(input, k).0.value.1, player.symbol).0 == Placed)
    ensures !player.isComputer ==> k < next || next == |input|
    ensures placed ==> Place(old(Snapshot(board)), move.0, move.1, player.symbol) == (Placed, Snapshot(board))
    ensures !placed ==> Snapshot(board) == old(Snapshot(board))
    ensures player.isComputer && !BoardFull(old(Snapshot(board))) ==> placed
  {
    next := k;
    if player.isComputer {
      move := ComputerMoveRandom(board);
    } else {
      var read;
      read, next := ReadMoveFrom(input, k);
      if read.None? {
        return false, (0, 0), next;
      }
      move := read.value;
    }
    var outcome := PlaceSymbol(board, move.0, move.1, player.symbol);
    placed := outcome == Placed;
  }

  /** The retry loop around play_turn in play_game: a human who picked an
      occupied cell is asked again. The computer never needs a second try
      (the program's `break` for that case is never taken), so a turn ends
      without a placement only when the input has run out. */
  method TakeTurn(board: array2<Cell>, player: Player, input: seq<string>, k: nat)
      returns (placed: bool, move: Pos, next: nat)
    requires board.Length0 == Size && board.Length1 == Size
    requires k <= |input| && !BoardFull(Snapshot(board))
    modifies board
    ensures k <= next <= |input|
    ensures placed ==> Place(old(Snapshot(board)), move.0, move.1, player.symbol) == (Placed, Snapshot(board))
    ensures !placed ==> Snapshot(board) == old(Snapshot(board)) && !player.isComputer && next == |input|
    ensures player.isComputer ==> placed && next == k
    ensures !player.isComputer ==>
      HumanTurn(old(Snapshot(board)), input, k) == (if placed then Some(move) else None, next)
  {
    ghost var before := Snapshot(board);
    placed, move, next := PlayTurn(board, player, input, k);
    while !placed
      invariant k <= next <= |input|
      invariant player.isComputer ==> placed && next == k
      invariant !player.isComputer ==>
        if placed then HumanTurn(before, input, k) == (Some(move), next)
        else HumanTurn(before, input, k) == HumanTurn(before, input, next)
      invariant placed ==> Place(before, move.0, move.1, player.symbol) == (Placed, Snapshot(board))
      invariant !placed ==> Snapshot(board) == before
      decreases |input| - next, if placed then 0 else 1
    {
      if player.isComputer {
        assert false;
      }
      if next == |input| {
        return;
      }
      placed, move, next := PlayTurn(board, player, input, next);
    }
  }

  /** The index of the player who makes move number n (counting from 0):
      player 0 first, then switch_turn after every move. */
  function MoverOf(n: nat): (i: int)
    ensures 0 <= i <= 1
  {
    if n == 0 then 0 else SwitchTurn(MoverOf(n - 1))
  }

  /** The players alternate: move n is made by player n mod 2. */
  lemma {:induction false} MoverOfParity(n: nat)
    ensures MoverOf(n) == n % 2
  {
    if n > 0 {
      MoverOfParity(n - 1);
    }
  }

  /** The game is still on after n moves with board g: n cells are filled,
      at least one is empty, and neither player has a line. */
  predicate InPlay(g: Grid, players: seq<Player>, n: int)
    requires |players| == 2
  {
    && n == FilledCount(g) < Size * Size
    && !HasWinner(g, players[0].symbol)
    && !HasWinner(g, players[1].symbol)
  }

  /** What play_game reports after n moves with final board g: a win by the
      player who made the last move, who has a line while the other has
      none; a tie on a full board without lines; or input that ran out
      while the human to move was asked, with the game still on. */
  predicate Reported(g: Grid, players: seq<Player>, result: GameResult, n: nat): (reported: bool)
    requires |players| == 2
    ensures reported && result.Win? ==> !IsTie(g, players[0].symbol, players[1].symbol)
    ensures reported && result.Tie? ==> !HasWinner(g, players[0].symbol) && !HasWinner(g, players[1].symbol)
    ensures reported && result.Stalled? ==> EmptyCells(g) != []
  {
    FullIffNoEmptyCells(g);
    && n == FilledCount(g)
    && match result
       case Win(w) =>
         && 1 <= n && w == MoverOf(n - 1)
         && HasWinner(g, players[w].symbol) && !HasWinner(g, players[1 - w].symbol)
       case Tie =>
         IsTie(g, players[0].symbol, players[1].symbol) && n == Size * Size
       case Stalled(w) =>
         && w == MoverOf(n) && !players[w].isComputer
         && !BoardFull(g) && InPlay(g, players, n)
  }

  /** After move n + 1, an accepted move by the player whose turn it was,
      from a game still on: a line of the mover's is reported as that
      player's win (the other player has none), otherwise a full board as
      a tie, and otherwise the game is still on. So checking only the
      mover's symbol, then the tie, loses nothing. */
  lemma AfterAcceptedMove(g: Grid, g': Grid, row: int, col: int, players: seq<Player>, idx: int, n: nat)
    requires |players| == 2 && players[0].symbol != players[1].symbol
    requires idx == MoverOf(n) && InPlay(g, players, n)
    requires Place(g, row, col, players[idx].symbol) == (Placed, g')
    ensures HasWinner(g', players[idx].symbol) ==> Reported(g', players, Win(idx), n + 1)
    ensures !HasWinner(g', players[idx].symbol) && IsTie(g', players[0].symbol, players[1].symbol) ==>
      Reported(g', players, Tie, n + 1)
    ensures !HasWinner(g', players[idx].symbol) && !IsTie(g', players[0].symbol, players[1].symbol) ==>
      InPlay(g', players, n + 1)
  {
    AcceptedMove(g, row, col, players[idx].symbol, players[1 - idx].symbol);
  }

  /** The game starts on the empty board, with no move made and neither
      player holding a line. */
  lemma GameStarts(players: seq<Player>)
    requires |players| == 2
    ensures InPlay(EmptyGrid, players, 0)
  {
    EmptyIffNoneFilled(EmptyGrid);
    EmptyBoardUndecided(players[0].symbol, players[0].symbol, players[1].symbol);
    EmptyBoardUndecided(players[1].symbol, players[0].symbol, players[1].symbol);
  }

  /** The board after the moves are made one by one from the empty board,
      player 0 first and then alternately (move n is player n mod 2's), or
      None when one of them is refused. */
  function Replay(players: seq<Player>, moves: seq<Pos>): Option<Grid>
    requires |players| == 2
    decreases |moves|
  {
    if moves == [] then Some(EmptyGrid)
    else
      var n := |moves| - 1;
      match Replay(players, moves[..n])
      case None => None
      case Some(g) =>
        var (outcome, g') := Place(g, moves[n].0, moves[n].1, players[n % 2].symbol);
        if outcome == Placed then Some(g') else None
  }

  /** Each move's cell holds the symbol of the player who made it (move i
      is player i mod 2's), and every other cell is empty. */
  ghost predicate MarksOf(players: seq<Player>, moves: seq<Pos>, g: Grid)
    requires |players| == 2
  {
    && (forall i | 0 <= i < |moves| ::
          InRange(moves[i].0, moves[i].1) && g[moves[i].0][moves[i].1] == Mark(players[i % 2].symbol))
    && (forall r, c | InRange(r, c) && (r, c) !in moves :: g[r][c] == Empty)
  }

  /** One more accepted move keeps MarksOf. */
  lemma {:induction false} MarksAfterMove(players: seq<Player>, prefix: seq<Pos>, m: Pos, g0: Grid, g: Grid)
    requires |players| == 2 && MarksOf(players, prefix, g0)
    requires Place(g0, m.0, m.1, players[|prefix| % 2].symbol) == (Placed, g)
    ensures MarksOf(players, prefix + [m], g)
  {
    var moves := prefix + [m];
    forall i | 0 <= i < |moves|
      ensures InRange(moves[i].0, moves[i].1)
      ensures g[moves[i].0][moves[i].1] == Mark(players[i % 2].symbol)
    {
      if i < |prefix| {
        var p := prefix[i];
        assert moves[i] == p && g0[p.0][p.1] != Empty;
      } else {
        assert moves[i] == m;
      }
    }
    forall r, c | InRange(r, c) && (r, c) !in moves
      ensures g[r][c] == Empty
    {
      assert (r, c) !in prefix && (r, c) != m;
    }
  }

  /** A move accepted on the replayed board, made by the player whose turn
      it is after those moves, extends the replay. */
  lemma {:induction false} ReplayStep(players: seq<Player>, moves: seq<Pos>, m: Pos, g0: Grid, g: Grid)
    requires |players| == 2 && Replay(players, moves) == Some(g0)
    requires Place(g0, m.0, m.1, players[MoverOf(|moves|)].symbol) == (Placed, g)
    ensures Replay(players, moves + [m]) == Some(g)
  {
    MoverOfParity(|moves|);
    assert (moves + [m])[..|moves|] == moves;
  }

  /** A replay of at least one move is the replay of all but the last one
      followed by an accepted placement of the last. */
  lemma ReplayLast(players: seq<Player>, moves: seq<Pos>) returns (g0: Grid)
    requires |players| == 2 && moves != [] && Replay(players, moves).Some?
    ensures Replay(players, moves[..|moves| - 1]) == Some(g0)
    ensures var n := |moves| - 1;
      Place(g0, moves[n].0, moves[n].1, players[n % 2].symbol) == (Placed, Replay(players, moves).value)
  {
    g0 := Replay(players, moves[..|moves| - 1]).value;
  }

  /** A replayed board has as many filled cells as moves were made. */
  lemma {:induction false} ReplayFilled(players: seq<Player>, moves: seq<Pos>, g: Grid)
    requires |players| == 2 && Replay(players, moves) == Some(g)
    ensures FilledCount(g) == |moves|
    decreases |moves|
  {
    if moves == [] {
      EmptyIffNoneFilled(EmptyGrid);
    } else {
      var n := |moves| - 1;
      var g0 := ReplayLast(players, moves);
      ReplayFilled(players, moves[..n], g0);
      PlaceFillsOne(g0, moves[n].0, moves[n].1, players[n % 2].symbol);
    }
  }

  /** On a replayed board each move's cell holds the symbol of the player
      who made it and every other cell is empty: no mark is there that
      nobody placed. */
  lemma {:induction false} ReplayMarks(players: seq<Player>, moves: seq<Pos>, g: Grid)
    requires |players| == 2 && Replay(players, moves) == Some(g)
    ensures MarksOf(players, moves, g)
    decreases |moves|
  {
    if moves != [] {
      var n := |moves| - 1;
      var prefix, m := moves[..n], moves[n];
      var g0 := ReplayLast(players, moves);
      ReplayMarks(players, prefix, g0);
      MarksAfterMove(players, prefix, m, g0, g);
      assert prefix + [m] == moves;
    }
  }

  /** Move i, made on the board g that the earlier moves left by the player
      with index i mod 2, who starts reading at input position `from` and
      stops at `to`: the game was still on before it; a computer's move
      reads no line and lands on a free cell; a human's move is the one
      that player's turn gives from that position. */
  predicate MoveFromInput(players: seq<Player>, input: seq<string>, g: Grid, i: nat, m: Pos, from: nat, to: nat)
    requires |players| == 2
  {
    && InPlay(g, players, i)
    && from <= to <= |input|
    && if players[i % 2].isComputer then from == to && Free(g, m)
       else HumanTurn(g, input, from) == (Some(m), to)
  }

  /** The moves of a game, each made where the earlier ones left the board
      and read from the input at the positions listed: move i starts at
      positions[i] and ends at positions[i + 1], from position 0 on. */
  predicate Transcript(players: seq<Player>, input: seq<string>, moves: seq<Pos>, positions: seq<nat>)
    requires |players| == 2
  {
    && |positions| == |moves| + 1 && positions[0] == 0
    && forall i | 0 <= i < |moves| ::
         && Replay(players, moves[..i]).Some?
         && MoveFromInput(players, input, Replay(players, moves[..i]).value, i, moves[i], positions[i], positions[i + 1])
  }

  /** A move made from the input on the replayed board extends the
      transcript. */
  lemma {:induction false} TranscriptStep(players: seq<Player>, input: seq<string>, moves: seq<Pos>, positions: seq<nat>,
                                          g: Grid, m: Pos, next: nat)
    requires |players| == 2 && Transcript(players, input, moves, positions)
    requires Replay(players, moves) == Some(g)
    requires MoveFromInput(players, input, g, |moves|, m, positions[|moves|], next)
    ensures Transcript(players, input, moves + [m], positions + [next])
  {
    var moves', positions' := moves + [m], positions + [next];
    forall i | 0 <= i < |moves'|
      ensures Replay(players, moves'[..i]).Some?
      ensures MoveFromInput(players, input, Replay(players, moves'[..i]).value, i, moves'[i], positions'[i], positions'[i + 1])
    {
      assert moves'[..i] == moves[..i];
      if i < |moves| {
        assert moves'[i] == moves[i] && positions'[i] == positions[i] && positions'[i + 1] == positions[i + 1];
      } else {
        assert moves[..i] == moves;
      }
    }
  }

  /** One pass of play_game's loop body, after n moves: the player with index
      idx takes a turn, the move count goes up by one, and the mover's line
      and then a tie are checked. `status` is None when the game goes on.
      Unless the input ran out, `move` is the mover's accepted placement. */
  method PlayRound(board: array2<Cell>, players: seq<Player>, idx: int, input: seq<string>, k: nat,
                   ghost moves: seq<Pos>)
      returns (status: Option<GameResult>, move: Pos, next: nat)
    requires board.Length0 == Size && board.Length1 == Size
    requires |players| == 2 && players[0].symbol != players[1].symbol
    requires k <= |input| && idx == MoverOf(|moves|) && InPlay(Snapshot(board), players, |moves|)
    requires Replay(players, moves) == Some(Snapshot(board))
    modifies board
    ensures k <= next <= |input|
    ensures status.Some? && status.value.Stalled? ==> status.value == Stalled(idx)
    ensures status == Some(Stalled(idx)) ==>
      && next == |input| && Snapshot(board) == old(Snapshot(board))
      && Reported(Snapshot(board), players, Stalled(idx), |moves|)
    ensures status != Some(Stalled(idx)) ==>
      && Place(old(Snapshot(board)), move.0, move.1, players[idx].symbol) == (Placed, Snapshot(board))
      && Replay(players, moves + [move]) == Some(Snapshot(board))
    ensures status.None? ==> |moves| + 1 < Size * Size && InPlay(Snapshot(board), players, |moves| + 1)
    ensures status.Some? && status != Some(Stalled(idx)) ==>
      Reported(Snapshot(board), players, status.value, |moves| + 1)
    ensures players[idx].isComputer ==> next == k && status != Some(Stalled(idx))
    ensures !players[idx].isComputer ==>
      HumanTurn(old(Snapshot(board)), input, k) == (if status == Some(Stalled(idx)) then None else Some(move), next)
    ensures status != Some(Stalled(idx)) ==> MoveFromInput(players, input, old(Snapshot(board)), |moves|, move, k, next)
  {
    var before := Snapshot(board);
    var player := players[idx];
    FullIffNoEmptyCells(before);
    var placed;
    placed, move, next := TakeTurn(board, player, input, k);
    if !placed {
      return Some(Stalled(idx)), move, next;
    }
    var g := Snapshot(board);
    MoverOfParity(|moves|);
    AfterAcceptedMove(before, g, move.0, move.1, players, idx, |moves|);
    ReplayStep(players, moves, move, before, g);
    if HasWinner(g, player.symbol) {
      return Some(Win(idx)), move, next;
    }
    if IsTie(g, players[0].symbol, players[1].symbol) {
      return Some(Tie), move, next;
    }
    status := None;
  }

  /** play_game's loop, from a fresh board, with player index 0 moving
      first: the turn passes only when neither a line of the mover's nor a
      tie ends the game, so the players alternate and the game ends after
      at most nine moves. `moves` are the accepted placements in order,
      `positions` the input position at which each move's turn started,
      and `consumed` the number of input lines read; a stalled game has
      read them all. */
  method PlayGame(players: seq<Player>, input: seq<string>)
      returns (final: Grid, result: GameResult, moves: seq<Pos>, consumed: nat, ghost positions: seq<nat>)
    requires |players| == 2 && players[0].symbol != players[1].symbol
    ensures Reported(final, players, result, |moves|)
    ensures Replay(players, moves) == Some(final)
    ensures |moves| <= Size * Size
    ensures Transcript(players, input, moves, positions)
    ensures consumed <= |input|
    ensures !result.Stalled? ==> consumed == positions[|moves|]
    ensures result.Stalled? ==>
      && consumed == |input|
      && HumanTurn(final, input, positions[|moves|]) == (None, |input|)
      && forall i | positions[|moves|] <= i < |input| :: !LegalLine(final, input[i])
  {
    var board := MakeBoard();
    var idx := 0;
    var moveCount := 0;
    moves := [];
    consumed := 0;
    positions := [0];
    GameStarts(players);

    while true
      invariant board.Length0 == Size && board.Length1 == Size
      invariant idx == MoverOf(moveCount) && consumed <= |input| && moveCount < Size * Size
      invariant moveCount == |moves| && Replay(players, moves) == Some(Snapshot(board))
      invariant InPlay(Snapshot(board), players, moveCount)
      invariant Transcript(players, input, moves, positions) && positions[|moves|] == consumed
      decreases Size * Size - moveCount
    {
      ghost var before := Snapshot(board);
      var status, move, next := PlayRound(board, players, idx, input, consumed, moves);
      var after := Snapshot(board);
      if status == Some(Stalled(idx)) {
        HumanTurnSpec(before, input, consumed);
        return after, status.value, moves, next, positions;
      }
      TranscriptStep(players, input, moves, positions, before, move, next);
      positions := positions + [next];
      consumed := next;
      moves := moves + [move];
      moveCount := moveCount + 1;
      if status.Some? {
        return after, status.value, moves, consumed, positions;
      }
      idx := SwitchTurn(idx);
    }
  }
}
