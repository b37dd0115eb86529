# Self-play tic-tac-toe: the game state

A model of the `State` class of `tictactoe_RL.py`: the 3x3 board, the
enumeration of empty cells, move application with the turn flip, the outcome
rule (rows, then columns, then the two diagonals by signed line sums, then a
tie on a full board), the reward table, `reset`, and the self-play driver
`play` that alternates two learning players, feeds each the fingerprint of
the board after its own move, and rewards and resets both when a game ends.

The project has four modules:

- `Board` (`board.dfy`) holds the board as a value: nine cells in row-major
  order, each 0, 1 or -1. It defines the outcome rule `WinnerOf`, the list of
  empty cells `EmptyCells`, mark counts, and lemmas that characterise the
  outcome by complete lines and empty cells.
- `Episodes` (`episodes.dfy`) describes games as sequences of moves:
  - `Replay` gives the board after the moves, `Boards` gives the fingerprints
    after each move, and `Trace` gives one player's share of them;
  - `Legal` and `IsGame` say when a move sequence is legal and when it is a
    complete game;
  - `Reward`, `Entry` and `Log` give what a player is fed;
  - its lemmas prove the alternation invariants.
- `Agents` (`agent.dfy`) holds the part of a player that `State` uses:
  - `chooseAction` is any one of the offered positions;
  - `addState` appends to the trace;
  - `feedReward` is recorded together with the trace it was fed against;
  - `reset` clears the trace.
- `Game` (`state.dfy`) is the class `State` itself:
  - the board is an `array<int>` of nine cells;
  - the fields are updated in place by the methods;
  - each method is proved against the functions of `Board` and `Episodes`.

`play`'s inner loop is split along the source's own structure:

- `Exchange` is one pass of the `while` body.
- `PlayTurn` is one player's half of that pass.
- `Turn` is the move followed by `winner`.
- `Move` is the choice, `updateState`, `getHash` and `addState`.
- `Pick` is `availablePositions` followed by `chooseAction`.
- `EndGame` is the `giveReward`/`reset` block.

The moves played in a game are ghost state, passed between these methods so
that the contracts can speak of whole games through the functions of
`Episodes`. The players' traces and reward records are ordinary fields of
`Agent`.

## Model

| member | source | states |
|---|---|---|
| Game.State.constructor | tictactoe_RL.py:10-18 | A new game has an all-zero valid board, player one (mark 1) to move, the end flag down, no fingerprint, and no outcome yet. |
| Game.State.GetHash | tictactoe_RL.py:21-23 | The fingerprint returned and stored is the board's nine cells in row-major order. |
| Game.State.Winner | tictactoe_RL.py:25-61 | The result is the outcome of the board under the rule of rows, then columns, then diagonals, then a full board. The end flag is set exactly when a result (win or tie) is reported and cleared otherwise. |
| Board.WinnerScanOrder | tictactoe_RL.py:27-41 | If row or column j (in scan order) sums to 3 or -3 and no earlier one does, the outcome is 1 or -1 by that line's sign, whatever later lines hold. |
| Board.WinnerDiagonals | tictactoe_RL.py:43-52 | With no deciding row or column, a diagonal summing to 3 gives 1 even if the other sums to -3; otherwise a diagonal summing to -3 gives -1. |
| Board.WinnerCharacterization | tictactoe_RL.py:25-61 | A win for 1 (for -1) implies a line summing to 3 (to -3). A tie holds iff no line is complete and no cell is empty. No result holds iff no line is complete and some cell is empty. These four are the only outcomes. |
| Board.EmptyBoardUndecided | tictactoe_RL.py:55-61 | The all-zero board is valid and has no result (None). |
| Board.LineCellsPositions | tictactoe_RL.py:28-44 | Line k is row k (`board[k, :]`) for k < 3, column k-3 (`board[:, k-3]`) for 3 <= k < 6, the main diagonal (`board[i, i]`) for 6 and the anti-diagonal (`board[i, 2-i]`) for 7, each as the flattened indices of its three (row, column) positions. |
| Board.LineSumMeaning | tictactoe_RL.py:28-47 | On a valid board a line sums to 3 (-3) iff its three cells all hold 1 (-1), and every line sum lies in -3..3. |
| Board.ScanLinesFirst | tictactoe_RL.py:27-41 | The row-and-column scan from line k finds nothing iff no line from k on decides. Otherwise it reports the sign of the first deciding line. |
| Game.State.AvailablePositions | tictactoe_RL.py:63-70 | The list has exactly the empty cells: every entry is an in-grid empty cell and every empty cell is listed. The entries are strictly increasing in row-major order, so there are no duplicates. The list is empty iff the board is full. |
| Board.ScanLines | tictactoe_RL.py:27-41 | The row-then-column scan reports only 1, -1 or nothing. |
| Board.DiagonalsOrTie | tictactoe_RL.py:43-61 | After the scan, the diagonal test and the tie test report one of the four outcomes. They report no result only when some cell is empty, and a tie only when none is. |
| Board.WinnerOf | tictactoe_RL.py:25-61 | The outcome of a board is one of 1, -1, 0 or no result, and there is no result only while some cell is empty. |
| Board.EmptyCells | tictactoe_RL.py:63-70 | The list of empty cells among the first n has at most n entries, all in the grid. |
| Board.EmptyCellsExact | tictactoe_RL.py:63-70 | Among the first n cells, the empty-cell list holds exactly the empty ones, strictly in row-major order. Its length is the number of zeros. |
| Board.EmptyCellsNone | tictactoe_RL.py:63-70 | The empty-cell list of the whole board is empty iff no cell is 0. |
| Board.BeforeIsIndexOrder | tictactoe_RL.py:66-69 | Row-major order of grid positions is the order of their flattened indices. |
| Board.CellIndex | tictactoe_RL.py:74 | The cell numpy writes for `board[position]` is 3*(row mod 3)+(column mod 3), so a negative index counts from the end; for an in-grid position it is 3*row+column. |
| Board.PosOf | tictactoe_RL.py:69 | The (row, column) pair of a flattened index lies in the grid and maps back to that index. |
| Game.State.UpdateState | tictactoe_RL.py:72-76 | Only the addressed cell changes, and it gets the current mark. The mark flips between 1 and -1, and the board stays valid. |
| Board.CountUpdate | tictactoe_RL.py:74 | Writing v into a cell changes the count of w by removing the old cell's contribution and adding the new one. |
| Episodes.SymAtNext | tictactoe_RL.py:76 | The mark of move k+1 is the opposite of the mark of move k. |
| Episodes.Reward | tictactoe_RL.py:79-90 | For a win the two rewards sum to 1 and player one gets 1 exactly when it won. For any other result, including None, player one gets less than player two and the rewards sum to 0.6. |
| Game.State.GiveReward | tictactoe_RL.py:79-90 | The outcome is recomputed (the end flag set accordingly), each player is fed its reward for that outcome once, together with its current trace, and the traces are unchanged. |
| Game.State.Reset | tictactoe_RL.py:93-97 | Whatever the state before, the result is a fresh all-zero valid board with player one to move, the end flag down, no fingerprint, and no outcome. |
| Board.EmptyBoardCounts | tictactoe_RL.py:94 | The reset board has nine empty cells and no marks. |
| Agents.Agent.ChooseAction | tictactoe_RL.py:106-107 | The chosen action is one of the offered positions. |
| Agents.Agent.AddState | tictactoe_RL.py:110 | The fingerprint is appended to the trace; the record of rewards is unchanged. |
| Agents.Agent.FeedReward | tictactoe_RL.py:83-90 | The reward is recorded together with the trace it was fed against; the trace is unchanged. |
| Agents.Agent.Reset | tictactoe_RL.py:115-116 | The trace is cleared; the record of rewards is unchanged. |
| Game.State.Pick | tictactoe_RL.py:106-107 | On a board with an empty cell, the agent's choice is an in-grid position whose cell is empty. |
| Game.State.Move | tictactoe_RL.py:106-110 | One move fills a previously empty cell with the current mark and flips the mark. The new board's fingerprint is stored as the board hash and appended to the mover's trace. |
| Game.State.Turn | tictactoe_RL.py:106-112 | A move in a game in progress extends the record of the round. The moves stay legal, replay to the board, and each trace holds the fingerprints after its own player's moves. The result is the new board's outcome, the end flag matches it, and the stored hash is the new board's fingerprint. |
| Game.State.PlayTurn | tictactoe_RL.py:106-118 | After one player's turn, either the game is complete and both players were fed their entries and reset with the board, or the round goes on with no outcome, the new board's fingerprint stored as the hash, and nothing fed. |
| Game.State.Exchange | tictactoe_RL.py:104-134 | Player one moves and, unless that ends the game, player two moves. The game then ends as in `PlayTurn`, or goes on with an even number of moves and the hash of the board after the last move. |
| Game.State.EndGame | tictactoe_RL.py:113-118 | At the end of a complete game, each player is fed its trace of the game and its reward. Both traces are then cleared, and the board is reset. |
| Game.State.PlayEpisode | tictactoe_RL.py:104-134 | With the end flag down, the players play one complete legal game of at most as many moves as there were empty cells. Each is fed exactly once, with its own post-move fingerprints and its reward. Both are then reset with the board. With the flag up, nothing changes. |
| Game.State.Play | tictactoe_RL.py:99-134 | From a state with the end flag down, `rounds` complete games are played. The first starts from the given board and the others from the reset board. Each player's record grows by exactly one entry per game, in order. With the flag up, or with no rounds, the board, mark, flag, hash and traces stay as they were. |
| Episodes.Replay | tictactoe_RL.py:104-134 | The board after playing a move list is again a nine-cell board. |
| Episodes.Boards | tictactoe_RL.py:108-109 | A game has one fingerprint per move. |
| Episodes.Legal | tictactoe_RL.py:104-134 | Every move goes to a cell empty at that time, and no move follows a board with an outcome. |
| Episodes.IsGame | tictactoe_RL.py:104-134 | A complete game is a non-empty legal move list whose final board has an outcome. |
| Episodes.Trace | tictactoe_RL.py:110 | A player's trace is no longer than the fingerprints it is taken from. |
| Episodes.Entry | tictactoe_RL.py:79-90 | What a player is fed at the end of a game: its earlier trace plus its own post-move fingerprints, and its reward for the final board's outcome. |
| Episodes.Log | tictactoe_RL.py:101-134 | A run of games gives one record entry per game. |
| Episodes.Advance | tictactoe_RL.py:106-112 | One legal move from a board with no outcome keeps the record of a round: the longer move list is legal, replays to the new board, leaves one empty cell fewer, passes the turn, and extends only the mover's trace. |
| Episodes.LegalFillsEmptyCells | tictactoe_RL.py:104-134 | Each legal move fills exactly one previously empty cell, so the board stays valid and a game from a board with e empty cells has at most e moves. |
| Episodes.PlayedCellsStayMarked | tictactoe_RL.py:104-134 | A cell once played keeps a non-zero mark for the rest of the game. |
| Episodes.MovesDistinct | tictactoe_RL.py:104-134 | No cell is played twice in a legal game. |
| Episodes.TurnInvPreserved | tictactoe_RL.py:72-76 | Alternating moves keep the rule that 1 is to move iff both marks are equally many, and otherwise player one has one mark more. |
| Episodes.TurnInvBeforeEachMove | tictactoe_RL.py:104-134 | In a legal game started under that rule, the rule holds before every move. |
| Episodes.GameFromReset | tictactoe_RL.py:104-134 | A game from the reset board has between 1 and 9 moves and no cell played twice. Before each move the mover is 1 iff the mark counts are equal, and otherwise player one has exactly one mark more. |
| Episodes.BoardsAt | tictactoe_RL.py:108-109 | The k-th fingerprint of a game is the board after its first k+1 moves. |
| Episodes.TraceAt | tictactoe_RL.py:110 | A player's trace has one entry per own turn, and its i-th entry is entry 2i (first mover) or 2i+1 (second mover). |
| Episodes.TraceIsOwnMoves | tictactoe_RL.py:108-126 | The i-th fingerprint a player records is the board right after that player's own i-th move. |
| Episodes.LogExtends | tictactoe_RL.py:101-134 | Each round appends to a player's record exactly that game's entry. The first game is fed against the starting board and trace; every later game is fed from the reset state. |
| Episodes.LogSnoc | tictactoe_RL.py:101 | The record of a run of games grows by one entry per game. |
| Episodes.AllGamesSnoc | tictactoe_RL.py:101 | A run of complete games extended by a complete game is still a run of complete games. |

## Left out

- `showBoard`, `play2` and the human player are console interaction and are not modelled.
- The progress `print` in `play` and the `pickle` persistence are I/O and are not modelled.
- The learning agent's policy and value update are not modelled. The agent class is not in the source file, so `chooseAction` is any offered position and `feedReward` only records the reward.
- `getHash` returns numpy's string rendering of the board. The model uses the nine cells themselves as the fingerprint, which identifies the board just as well.
- The board holds numpy floats. The model uses integers, since the cells only ever hold 0, 1 and -1 and the sums are exact.
- Game.State.Play, Game.State.PlayEpisode, Game.State.Exchange, Game.State.PlayTurn, Game.State.Turn, Game.State.EndGame and Game.State.GiveReward require the two players to be distinct objects. Aliasing one agent as both players (each `addState`, `feedReward` and `reset` then reaching the same trace) is not modelled.
- Game.State.PlayEpisode: it requires that a board whose end flag is down has no outcome yet. Every state reached through the constructor, `reset` and `play` meets this. It fails as soon as `updateState` is called directly, outside `play`, with a move that completes a line or fills the board: for example 1 at (0,0) and (0,1), then `updateState((0,2))`. Such a state is not covered. `Game.State.Play` has the same requirement.
- Game.State.UpdateState: like the code, it writes the cell whether or not it is empty. A fail-fast rejection of a move onto an occupied cell is not in the code and is not modelled. `play` only ever passes empty cells, as `Pick` proves.
- Game.State.UpdateState requires an in-range position (-3..2 in each coordinate). The IndexError numpy raises for any other position is not modelled; `play` only passes positions from `availablePositions`.
- Game.State.Play takes `rounds` as an argument; the default of 100 is not modelled. `rounds` is a `nat`, so a negative count, which `range` treats as no rounds, cannot be passed; its behaviour is that of `rounds == 0`, which the contract covers.
