# Tic-tac-toe core, modelled in Dafny

The program is a console tic-tac-toe game on a 3x3 board, for two people or
for a person against the computer. Each player has a name and a one-character
symbol. The board is a grid in which an empty cell holds the integer 0 and a
filled cell holds its player's symbol. Player 1 always moves first. A human
types a move as two 1-based numbers. The computer picks an empty cell at
random. After every accepted move the game checks whether the mover holds a
row, a column or a diagonal, and then whether the board is full without a
winner. If neither ends the game, the turn passes to the other player.

The model is split into these modules:

- `Board` (board.dfy): the board as a two-dimensional array of
  `Cell = Empty | Mark(symbol)`. `Snapshot` gives its value as a `Grid`.
  The module covers `make_board`, `is_cell_empty`, `place_symbol`,
  `board_full`, `board_empty` and the row-major list of empty cells.
- `Rules` (rules.dfy): `has_winner`, `is_tie` and `switch_turn` over a grid.
  It also has the facts the game loop relies on: the eight winning lines, and
  that a move cannot give the opponent a line.
- `Text` (text.dfy): the string operations the input checks use, namely
  `str.strip()`, `str.split()`, `str.isdigit()` and `int()`, over the ASCII
  characters Python treats as whitespace and the digits 0-9.
- `MoveSource` (moves.dfy): the computer's random move, and one attempt of
  `read_move` on one line of input.
- `Setup` (setup.dfy): one attempt each of `get_player_name` and
  `choose_symbols`.
- `Game` (game.dfy): `play_turn` and the `play_game` loop. The lines a human
  types are a finite input stream, and the program's retry loops consume it.
  The main result is `Game.PlayGame`. It reports a win for the player who
  made the last move, a tie on a full board without a line, or a game that
  stalled because no line left in the input names a free cell. Each move is
  tied to the input lines it was read from, the game was still on before
  every move, and the game ends within nine moves.
- `Results` (results.dfy): `Option` and `Result`.

## Model

| member | source | states |
|---|---|---|
| Board.PosOf | main.py:219-220 | every number below 9 names an on-board position, numbered row by row |
| Board.PosOfIndexOf | main.py:219-220 | numbering the positions row by row and back is the identity on the board |
| Board.Update | main.py:115 | writing one cell changes that cell and no other |
| Board.GridsEqual | main.py:83-84 | two boards are equal when they agree on every cell |
| Board.Snapshot | main.py:83-84 | the value of a board array holds, at each position, the array's cell |
| Board.EmptyBefore | main.py:218-222 | the list of empty cells among the first k positions has at most k entries |
| Board.EmptyBeforeStep | main.py:219-222 | visiting position (row, col) appends it to the list exactly when its cell is empty |
| Board.BoardFull | main.py:102-107 | a full board is never the empty board |
| Board.BoardEmpty | main.py:109-110 | board_empty holds for the board make_board returns and for no other |
| Board.EmptyCells | main.py:218-222 | a position is listed exactly when it is on the board and its cell is empty |
| Board.FilledCount | main.py:102-107 | at most nine cells are filled |
| Board.EmptyBeforeMembers | main.py:218-222 | a position is in the list of the first k positions exactly when it is on the board, numbered below k and empty |
| Board.EmptyBeforeOrdered | main.py:219-220 | the listed positions come in strictly increasing row-major order |
| Board.EmptyCellsSpec | main.py:218-222 | the candidate list holds exactly the empty positions of the board, each once, in row-major order |
| Board.FullIffNoEmptyCells | main.py:102-107 | board_full holds exactly when no empty position is left, which is exactly when all nine cells are filled |
| Board.EmptyBeforeAll | main.py:109-110 | all of the first k positions are empty exactly when all k are listed |
| Board.EmptyIffNoneFilled | main.py:109-110 | board_empty holds exactly when no cell is filled |
| Board.EmptyBeforeAfterFill | main.py:112-116 | filling an empty cell shortens the list of empty positions below k by one exactly when that cell is numbered below k |
| Board.Place | main.py:112-119 | success exactly for an empty on-board cell, which then holds the symbol while every other cell is unchanged; an off-board position gives the IndexError outcome; a refused placement leaves the board as it was |
| Board.PlaceFillsOne | main.py:112-119 | an accepted placement fills exactly one more cell and a refused one fills none |
| Board.MakeBoard | main.py:83-84 | a fresh 3x3 board on which every cell is empty |
| Board.IsCellEmpty | main.py:96-99 | an error exactly for a position off the board; otherwise whether that cell is empty |
| Board.PlaceSymbol | main.py:112-119 | the outcome and the new board are those of Place on the old board |
| Rules.HasWinner | main.py:156-175 | a symbol that has a line has at least one mark on the board |
| Rules.WinnerIffLine | main.py:156-175 | has_winner holds exactly when the symbol fills one of the eight lines: three rows, three columns and two diagonals |
| Rules.IsTie | main.py:178-185 | on a tied board no empty position is left |
| Rules.TieIffFullWithoutWinner | main.py:178-185 | is_tie holds exactly when all nine cells are filled and neither symbol has a line |
| Rules.EmptyBoardUndecided | main.py:156-185 | on the empty board no symbol has a line and there is no tie |
| Rules.MoveCannotMakeOpponentWin | main.py:310-314 | placing one symbol on an empty cell never completes a line of a different symbol |
| Rules.AcceptedMove | main.py:302-320 | after an accepted move one more cell is filled, the other player still has no line, and the board is full exactly when nine cells are filled |
| Rules.SwitchTurn | main.py:191-193 | index 0 becomes 1 and index 1 becomes 0 |
| Rules.SwitchTurnInvolution | main.py:191-193 | switching twice gives back the same player |
| Text.TrimLeft | main.py:127 | drops exactly the leading whitespace: the result is a suffix, everything cut is whitespace, and it does not start with whitespace |
| Text.TrimRight | main.py:127 | drops exactly the trailing whitespace: the result is a prefix, everything cut is whitespace, and it does not end with whitespace |
| Text.Strip | main.py:127 | the result is a slice of the input with no whitespace at either end, and everything cut off on either side is whitespace |
| Text.StripStripped | main.py:127 | a string without surrounding whitespace is left unchanged, so stripping is idempotent |
| Text.SplitFrom | main.py:130 | every word is non-empty and holds no whitespace |
| Text.InterleaveConsSpace | main.py:130 | one more whitespace character in front of a line goes into its leading separator |
| Text.SplitFromLayout | main.py:130 | the word in progress followed by the rest of the line is the words found, with whitespace separators around them, and no whitespace between two words is missing |
| Text.SpaceLayout | main.py:130 | the same layout when the rest of the line starts with whitespace |
| Text.Split | main.py:130 | every word is non-empty and holds no whitespace |
| Text.SplitLayout | main.py:130 | every line is its words with whitespace around them and at least one whitespace character between two words |
| Text.SkipSpace | main.py:130 | whitespace before any word is skipped |
| Text.EndWord | main.py:130 | whitespace after a word ends that word |
| Text.SplitInterleave | main.py:130 | words laid out with whitespace around them and at least one whitespace character between two words are split back into exactly those words, so the split of a line is the only such layout of it |
| Text.SplitFromWord | main.py:130 | reading a run of non-whitespace extends the word in progress |
| Text.SplitJoin | main.py:130 | splitting words joined by single spaces gives the words back |
| Text.IsDigits | main.py:42 | a string of digits is non-empty and holds no whitespace, so it is one word |
| Text.DigitValue | main.py:135-136 | a digit's value is below 10 |
| Text.ShowNat | main.py:135-136 | the decimal form of a natural number is a non-empty string of digits |
| Text.DigitsValueShowNat | main.py:135-136 | reading back the decimal digits of n gives n |
| Text.ParseInt | main.py:135-136 | a token that converts is one non-empty word, and its value is negative only when it starts with a minus sign |
| Text.ParseShowInt | main.py:135-136 | int() of the decimal form of any integer gives that integer |
| MoveSource.CollectEmptyCells | main.py:218-222 | the collected list is the row-major list of the board's empty positions |
| MoveSource.ComputerMoveRandom | main.py:216-227 | the move is one of the listed empty cells, or (0, 0) when none is left; on a board that is not full it is on the board and empty |
| MoveSource.OnlyEmptyCellIsChosen | main.py:216-227 | when one cell is empty the computer's move is that cell |
| MoveSource.ReadMove | main.py:123-152 | a line is accepted exactly when it has two integer words whose values lie in 1..3, and then gives those values minus one; a wrong word count and a non-integer word are refused exactly in their cases |
| MoveSource.ShowIntIsWord | main.py:135-136 | the decimal form of an integer is one non-empty word |
| MoveSource.FormatMoveWords | main.py:127-130 | two integers typed with a space between them strip and split into their two decimal forms |
| MoveSource.ReadFormattedMove | main.py:135-147 | two integers typed with a space between them are read as the 0-based move exactly when both lie in 1..3, and are refused as out of range otherwise |
| MoveSource.ReadMoveRoundTrip | main.py:123-147 | every on-board move, typed 1-based, is read back as itself |
| MoveSource.RowFourRefused | main.py:143-145 | "4 1" is refused as out of range |
| Setup.AcceptName | main.py:38-48 | a name is accepted exactly when its stripped form has at least two characters and is not all digits; the accepted value is the stripped form; an all-digit name is refused as a number |
| Setup.AcceptedNameStable | main.py:38-48 | an accepted name is accepted again, unchanged |
| Setup.PaletteValid | main.py:5-9 | the palette has 36 entries, each a single character other than "0" |
| Setup.Resolve | main.py:58-65 | the symbol is never empty: the stripped answer when it is non-empty, and the random pick when it is empty |
| Setup.ChooseSymbols | main.py:53-81 | an accepted pair is two distinct single characters, neither "0", resolved from the answers; equal symbols, overlong symbols and acceptance each happen exactly in their cases |
| Setup.RandomFallbackAccepted | main.py:50-81 | two empty answers are accepted exactly when the two random picks differ |
| Game.FirstAccepted | main.py:123-152 | a retry loop consumes at least one line when it returns a value, and the whole input when it gives none |
| Game.FirstAcceptedSpec | main.py:123-152 | the value is what the first accepted line gives, and every line before it was refused |
| Game.ReadMoveFrom | main.py:123-152 | read_move's loop returns the first line's move that is accepted, and the position after it |
| Game.AskUntilFree | main.py:301-304 | asking again until a move lands on a free cell reads at least one line when it finds a move, that move's cell is free, and finding none means all lines were read |
| Game.AskUntilFreeSpec | main.py:301-304 | the move found is what the last line read gives, no earlier line gave a free cell, and no move is found exactly when no line left gives one |
| Game.HumanTurnSpec | main.py:123-152 | a human's turn plays the move typed on the last line it reads, every earlier line was refused by read_move or named a taken cell, and it finds no move exactly when every line left is such a line |
| Game.FirstLineLegal | main.py:278-282 | when the next line gives a move on a free cell, the turn plays that move after reading only that line |
| Game.OpeningLinePlayed | main.py:278-282 | on the empty board, any on-board move typed 1-based as the first line is played after that one line |
| Game.PlayTurn | main.py:271-286 | a turn reads or picks a move and places it; a human's turn succeeds exactly when read_move gives a move from the lines typed and that cell is free; success means the board changed exactly as Place says, failure leaves it unchanged; the computer reads no line and always succeeds on a board that is not full |
| Game.TakeTurn | main.py:301-306 | repeating the turn until it succeeds ends in an accepted placement, or in a human whose input ran out, with the board unchanged; for a human, the placed move and the lines read are those of the human's turn over the lines typed, and the computer reads no line |
| Game.MoverOf | main.py:293-323 | the player to move is always index 0 or 1 |
| Game.MoverOfParity | main.py:293-323 | move n (from 0) is made by the player with index n mod 2 |
| Game.AfterAcceptedMove | main.py:308-323 | after an accepted move, a line of the mover's is that player's win while the other has none, a full board without it is a tie, and otherwise the game goes on |
| Game.Reported | main.py:310-320 | the reported results exclude each other: a win is never a tie, a tie has no line for either player, and a stalled game still has an empty cell |
| Game.GameStarts | main.py:290-294 | the game starts with no cell filled and no line for either player |
| Game.MarksAfterMove | main.py:112-116 | an accepted move puts the mover's mark on its cell and keeps every earlier mark and every other empty cell |
| Game.ReplayStep | main.py:302-308 | a move accepted for the player whose turn it is extends the replay of the moves so far |
| Game.ReplayLast | main.py:302-308 | a replay is the replay of all moves but the last, followed by an accepted placement of the last move |
| Game.ReplayFilled | main.py:302-308 | a replayed board has as many filled cells as moves were made |
| Game.ReplayMarks | main.py:293-323 | on a replayed board each move's cell holds the mark of the player who made it, alternately from player 0, and every other cell is empty |
| Game.TranscriptStep | main.py:296-323 | a move read from the input on the replayed board, by the player to move, extends the record of moves and input positions |
| Game.PlayRound | main.py:296-323 | a human's move or stall is the human's turn over the lines from the current position, and the computer reads no line; a stall reads all lines and leaves the board unchanged; otherwise the board is the old board with the mover's placement, the replay grows by that move, and the result is either reported correctly or the game goes on |
| Game.PlayGame | main.py:288-323 | the final board is the replay of the moves made, player 0 first and then alternately; every move was made while the game was still on, a computer's on a free cell without reading input, a human's as the human's turn gives it from the input position reached; the reported result is correct: the last mover's win with the other player lineless, a tie on a full board, or a stall in a game still on, after all input was read and only when no line left names a free cell; at most nine moves are made |

## Left out

- Console output is not modelled: `print_board`, `announce_result`,
  `welcome_message`, `clear_console` and the program's messages.
- The session-level prompts are not modelled: `select_mode`,
  `ask_play_again`, `main`, and the order of prompts in `init_game`. The
  players are a parameter of `Game.PlayGame`.
- The computer's thinking delay (`time.sleep`) is left out, because it has
  no effect on the game.
- `random.choice` is not modelled as a distribution.
  `MoveSource.ComputerMoveRandom` picks any member of the list
  nondeterministically. `Setup.ChooseSymbols` takes the two palette picks
  as parameters.
- At the end of input, `input()` raises `EOFError`. In `read_move` the
  `except Exception` branch catches it, so the loop asks again without end.
  In `get_player_name` and `choose_symbols` it propagates and ends the
  program. The model reads a finite list of lines, and a game whose human
  player has no line left is reported as `Stalled` after all lines are read.
  `Stalled` stands for that endless retry.
- The retry loops of `get_player_name` and `choose_symbols` are not
  modelled. The model covers one attempt each: `Setup.AcceptName` and
  `Setup.ChooseSymbols`.
- Python's `str.strip`, `str.split`, `str.isdigit` and `int()` also accept
  non-ASCII whitespace and digits, and `int()` accepts single underscores
  between digits and refuses numbers of more than 4300 digits. The model
  covers ASCII whitespace and the digits 0-9 only, and has no digit limit.
- `make_board`'s `size` parameter is not modelled. It is always left at its
  default of 3.
- The module-level globals `board` and `game_state` are not modelled. The
  game loop works on its own board and counters, which the globals do not
  affect.
- `place_symbol` returns `True`, `False` or `None`. The model gives these
  three outcomes names, and only `Placed` counts as success, as in the
  program's truth test.
- Setup.PaletteValid: does not state that the 36 palette entries are
  pairwise distinct, because no property of the game depends on it.
