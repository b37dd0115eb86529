/** The game state of self-play tic-tac-toe: the board, whose turn it is,
    whether the game has ended, the last fingerprint taken, and the two
    players it drives through whole games. */
module Game {
  import opened Board
  import opened Episodes
  import opened Agents

  class State {
    /** The 3x3 grid, flattened in row-major order. */
    var board: array<int>
    const p1: Agent
    const p2: Agent
    var isEnd: bool
    var boardHash: Option<seq<int>>
    /** The mark the next move places: 1 for player one, -1 for player two. */
    var playerSymbol: int

    ghost predicate Valid()
      reads this, board
    {
      board.Length == 9 && ValidBoard(board[..]) && (playerSymbol == 1 || playerSymbol == -1)
    }

    /** The board's cells, which are also its fingerprint. */
    ghost function Cells(): seq<int>
      reads this, board
    {
      board[..]
    }

    /** Unless the game is flagged as ended, the board has no outcome yet. */
    ghost predicate Ready()
      reads this, board
      requires Valid()
    {
      !isEnd ==> WinnerOf(board[..]) == None
    }

    constructor (p1: Agent, p2: Agent)
      ensures Valid() && Ready() && fresh(board)
      ensures Cells() == EmptyBoard && playerSymbol == 1 && !isEnd && boardHash == None
      ensures this.p1 == p1 && this.p2 == p2
    {
      board := new int[Rows * Cols](_ => 0);
      this.p1 := p1;
      this.p2 := p2;
      isEnd := false;
      boardHash := None;
      playerSymbol := 1;
      new;
      assert board[..] == EmptyBoard;
      EmptyBoardUndecided();
    }

    /** Takes the fingerprint of the current board and keeps it. */
    method GetHash() returns (hash: seq<int>)
      modifies this`boardHash
      ensures hash == Cells() && boardHash == Some(hash)
    {
      hash := board[..];
      boardHash := Some(hash);
    }

    /** Scans rows, then columns, then the diagonals, then checks for a
        full board, and flags the game as ended exactly when it reports
        an outcome. */
    method Winner() returns (result: Option<int>)
      requires Valid()
      modifies this`isEnd
      ensures result == WinnerOf(Cells())
      ensures isEnd == (result != None)
    {
      for i := 0 to Rows
        invariant WinnerOf(board[..]) == WinnerFrom(board[..], i)
      {
        var sum := board[Cols * i] + board[Cols * i + 1] + board[Cols * i + 2];
        assert sum == LineSum(board[..], i);
        if sum == 3 {
          isEnd := true;
          return Some(1);
        }
        if sum == -3 {
          isEnd := true;
          return Some(-1);
        }
      }
      for i := 0 to Cols
        invariant WinnerOf(board[..]) == WinnerFrom(board[..], Rows + i)
      {
        var sum := board[i] + board[Cols + i] + board[2 * Cols + i];
        assert sum == LineSum(board[..], Rows + i);
        if sum == 3 {
          isEnd := true;
          return Some(1);
        }
        if sum == -3 {
          isEnd := true;
          return Some(-1);
        }
      }
      var diag1 := board[0] + board[4] + board[8];
      var diag2 := board[2] + board[4] + board[6];
      assert diag1 == LineSum(board[..], 6) && diag2 == LineSum(board[..], 7);
      if Max(Abs(diag1), Abs(diag2)) == 3 {
        isEnd := true;
        if diag1 == 3 || diag2 == 3 {
          return Some(1);
        } else {
          return Some(-1);
        }
      }
      var positions := AvailablePositions();
      if |positions| == 0 {
        isEnd := true;
        return Some(0);
      }
      isEnd := false;
      return None;
    }

    /** The empty cells, each once, in row-major order. */
    method AvailablePositions() returns (positions: seq<Pos>)
      requires board.Length == 9
      ensures positions == EmptyCells(Cells(), 9)
      ensures forall k :: 0 <= k < |positions| ==>
        InGrid(positions[k]) && board[CellIndex(positions[k])] == 0
      ensures forall c: Cell :: board[c] == 0 ==> PosOf(c) in positions
      ensures forall k, l :: 0 <= k < l < |positions| ==> Before(positions[k], positions[l])
      ensures |positions| == 0 <==> 0 !in Cells()
    {
      positions := [];
      for i := 0 to Rows
        invariant positions == EmptyCells(board[..], Cols * i)
      {
        for j := 0 to Cols
          invariant positions == EmptyCells(board[..], Cols * i + j)
        {
          assert PosOf(Cols * i + j) == (i, j);
          if board[Cols * i + j] == 0 {
            positions := positions + [(i, j)];
          }
        }
      }
      EmptyCellsExact(board[..], 9);
      EmptyCellsNone(board[..]);
    }

    /** Places the current mark at `position` (numpy indexing, so a
        negative index counts from the end) and passes the turn. The cell
        is written whether or not it was empty. */
    method UpdateState(position: Pos)
      requires Valid() && InBoard(position)
      modifies board, this`playerSymbol
      ensures Valid()
      ensures Cells() == old(Cells())[CellIndex(position) := old(playerSymbol)]
      ensures playerSymbol == if old(playerSymbol) == 1 then -1 else 1
    {
      board[CellIndex(position)] := playerSymbol;
      playerSymbol := if playerSymbol == 1 then -1 else 1;
    }

    /** Recomputes the outcome and feeds each player its reward: 1 to the
        winner and 0 to the loser, and 0.1 to player one and 0.5 to player
        two for anything else. */
    method GiveReward()
      requires Valid() && p1 != p2
      modifies this`isEnd, p1, p2
      ensures isEnd == (WinnerOf(Cells()) != None)
      ensures p1.episodes == old(p1.episodes) + [(old(p1.states), Reward(WinnerOf(Cells())).0)]
      ensures p2.episodes == old(p2.episodes) + [(old(p2.states), Reward(WinnerOf(Cells())).1)]
      ensures p1.states == old(p1.states) && p2.states == old(p2.states)
    {
      var result := Winner();
      if result == Some(1) {
        p1.FeedReward(1.0);
        p2.FeedReward(0.0);
      } else if result == Some(-1) {
        p1.FeedReward(0.0);
        p2.FeedReward(1.0);
      } else {
        p1.FeedReward(0.1);
        p2.FeedReward(0.5);
      }
    }

    /** Back to the state of a new game, whatever the state before. */
    method Reset()
      modifies this`board, this`boardHash, this`isEnd, this`playerSymbol
      ensures Valid() && Ready() && fresh(board)
      ensures Cells() == EmptyBoard && boardHash == None && !isEnd && playerSymbol == 1
    {
      board := new int[Rows * Cols](_ => 0);
      boardHash := None;
      isEnd := false;
      playerSymbol := 1;
      assert board[..] == EmptyBoard;
      EmptyBoardUndecided();
    }

    /** One round of `play`: unless the game is already flagged as ended,
        the two players move in turn, each recording the fingerprint after
        its own move, until the board has an outcome; then both are
        rewarded, both traces are cleared and the board is reset. */
    method PlayEpisode() returns (ghost moves: seq<Cell>)
      requires Valid() && Ready() && p1 != p2
      modifies this, board, p1, p2
      ensures Valid() && Ready()
      ensures old(isEnd) ==>
        moves == [] && isEnd && board == old(board) && Cells() == old(Cells()) &&
        playerSymbol == old(playerSymbol) && boardHash == old(boardHash) &&
        p1.states == old(p1.states) && p2.states == old(p2.states) &&
        p1.episodes == old(p1.episodes) && p2.episodes == old(p2.episodes)
      ensures !old(isEnd) ==>
        IsGame(old(Cells()), old(playerSymbol), moves) && |moves| <= Count(old(Cells()), 0) &&
        p1.episodes == old(p1.episodes) + [Entry(old(Cells()), old(playerSymbol), old(p1.states), moves, 0)] &&
        p2.episodes == old(p2.episodes) + [Entry(old(Cells()), old(playerSymbol), old(p2.states), moves, 1)] &&
        p1.states == [] && p2.states == [] &&
        fresh(board) && Cells() == EmptyBoard && playerSymbol == 1 && !isEnd && boardHash == None
    {
      moves := [];
      ghost var start, first := board[..], playerSymbol;
      ghost var pre1, pre2 := p1.states, p2.states;
      while !isEnd
        invariant Valid() && board == old(board) && isEnd == old(isEnd)
        invariant isEnd ==> moves == [] && boardHash == old(boardHash)
        invariant !isEnd ==> WinnerOf(Cells()) == None
        invariant InRound(start, first, moves, pre1, pre2, Cells(), playerSymbol, p1.states, p2.states) && |moves| % 2 == 0
        invariant p1.episodes == old(p1.episodes) && p2.episodes == old(p2.episodes)
        decreases Count(start, 0) - |moves|
      {
        var done;
        done, moves := Exchange(start, first, moves, pre1, pre2);
        if done {
          break;
        }
      }
    }

    /** One pass of `play`'s inner loop: player one takes its turn and,
        unless that ends the game, player two takes its turn. */
    method Exchange(ghost start: seq<int>, ghost first: int, ghost moves: seq<Cell>,
                    ghost pre1: seq<seq<int>>, ghost pre2: seq<seq<int>>)
      returns (done: bool, ghost moves': seq<Cell>)
      requires Valid() && p1 != p2 && ValidBoard(start) && (first == 1 || first == -1)
      requires InRound(start, first, moves, pre1, pre2, Cells(), playerSymbol, p1.states, p2.states)
      requires |moves| % 2 == 0 && WinnerOf(Cells()) == None
      modifies this, board, p1, p2
      ensures Valid() && Ready() && |moves| < |moves'|
      ensures done ==>
        IsGame(start, first, moves') && |moves'| <= Count(start, 0) &&
        p1.episodes == old(p1.episodes) + [Entry(start, first, pre1, moves', 0)] &&
        p2.episodes == old(p2.episodes) + [Entry(start, first, pre2, moves', 1)] &&
        p1.states == [] && p2.states == [] &&
        fresh(board) && Cells() == EmptyBoard && playerSymbol == 1 && !isEnd && boardHash == None
      ensures !done ==>
        board == old(board) && !isEnd && boardHash == Some(Cells()) &&
        InRound(start, first, moves', pre1, pre2, Cells(), playerSymbol, p1.states, p2.states) &&
        |moves'| % 2 == 0 && p1.episodes == old(p1.episodes) && p2.episodes == old(p2.episodes)
    {
      done, moves' := PlayTurn(p1, start, first, moves, pre1, pre2);
      if !done {
        ParityNext(|moves|);
        done, moves' := PlayTurn(p2, start, first, moves', pre1, pre2);
        ParityNext(|moves| + 1);
      }
    }

    /** One player's half of `play`'s inner loop: the player moves and, if
        that ends the game, both players are rewarded, both traces are
        cleared and the board is reset. */
    method PlayTurn(agent: Agent, ghost start: seq<int>, ghost first: int, ghost moves: seq<Cell>,
                    ghost pre1: seq<seq<int>>, ghost pre2: seq<seq<int>>)
      returns (done: bool, ghost moves': seq<Cell>)
      requires Valid() && p1 != p2 && ValidBoard(start) && (first == 1 || first == -1)
      requires |moves| % 2 == 0 ==> agent == p1
      requires |moves| % 2 == 1 ==> agent == p2
      requires InRound(start, first, moves, pre1, pre2, Cells(), playerSymbol, p1.states, p2.states)
      requires WinnerOf(Cells()) == None
      modifies this, board, p1, p2
      ensures Valid() && Ready() && |moves'| == |moves| + 1
      ensures done ==>
        IsGame(start, first, moves') && |moves'| <= Count(start, 0) &&
        p1.episodes == old(p1.episodes) + [Entry(start, first, pre1, moves', 0)] &&
        p2.episodes == old(p2.episodes) + [Entry(start, first, pre2, moves', 1)] &&
        p1.states == [] && p2.states == [] &&
        fresh(board) && Cells() == EmptyBoard && playerSymbol == 1 && !isEnd && boardHash == None
      ensures !done ==>
        board == old(board) && !isEnd && boardHash == Some(Cells()) &&
        InRound(start, first, moves', pre1, pre2, Cells(), playerSymbol, p1.states, p2.states) &&
        p1.episodes == old(p1.episodes) && p2.episodes == old(p2.episodes)
    {
      var win;
      win, moves' := Turn(agent, start, first, moves, pre1, pre2);
      done := win != None;
      if done {
        EndGame(start, first, moves', pre1, pre2);
      }
    }

    /** One player's move within a round: it picks an empty position, the
        mark is placed and the turn passes, the player records the new
        fingerprint, and the outcome is checked. */
    method Turn(agent: Agent, ghost start: seq<int>, ghost first: int, ghost moves: seq<Cell>,
                ghost pre1: seq<seq<int>>, ghost pre2: seq<seq<int>>)
      returns (win: Option<int>, ghost moves': seq<Cell>)
      requires Valid() && p1 != p2 && ValidBoard(start) && (first == 1 || first == -1)
      requires |moves| % 2 == 0 ==> agent == p1
      requires |moves| % 2 == 1 ==> agent == p2
      requires InRound(start, first, moves, pre1, pre2, Cells(), playerSymbol, p1.states, p2.states) && WinnerOf(Cells()) == None
      modifies board, this`playerSymbol, this`boardHash, this`isEnd, agent
      ensures Valid() && InRound(start, first, moves', pre1, pre2, Cells(), playerSymbol, p1.states, p2.states) && |moves'| == |moves| + 1
      ensures p1.episodes == old(p1.episodes) && p2.episodes == old(p2.episodes)
      ensures win == WinnerOf(Cells()) && isEnd == (win != None) && boardHash == Some(Cells())
    {
      ghost var cell := Move(agent);
      win := Winner();
      moves' := moves + [cell];
      Advance(start, first, moves, pre1, pre2, old(Cells()), old(playerSymbol), old(p1.states), old(p2.states),
              cell, p1.states, p2.states);
    }

    /** The first half of a turn: the agent picks an empty position, the
        mark is placed, the turn passes and the agent records the new
        fingerprint. */
    method Move(agent: Agent) returns (ghost cell: Cell)
      requires Valid() && WinnerOf(Cells()) == None
      modifies board, this`playerSymbol, this`boardHash, agent
      ensures Valid() && old(Cells())[cell] == 0
      ensures Cells() == old(Cells())[cell := old(playerSymbol)]
      ensures playerSymbol == -old(playerSymbol)
      ensures boardHash == Some(Cells())
      ensures agent.states == old(agent.states) + [Cells()] && agent.episodes == old(agent.episodes)
    {
      WinnerCharacterization(board[..]);
      var action := Pick(agent);
      cell := CellIndex(action);
      UpdateState(action);
      var hash := GetHash();
      agent.AddState(hash);
    }

    /** The agent picks one of the empty positions. */
    method Pick(agent: Agent) returns (action: Pos)
      requires Valid() && 0 in Cells()
      ensures InGrid(action) && Cells()[CellIndex(action)] == 0
    {
      var positions := AvailablePositions();
      action := agent.ChooseAction(positions, board[..], playerSymbol);
    }

    /** The end of a round: both players are rewarded for the outcome,
        both traces are cleared and the board is reset. */
    method EndGame(ghost start: seq<int>, ghost first: int, ghost moves: seq<Cell>,
                   ghost pre1: seq<seq<int>>, ghost pre2: seq<seq<int>>)
      requires Valid() && p1 != p2 && |start| == 9
      requires InRound(start, first, moves, pre1, pre2, Cells(), playerSymbol, p1.states, p2.states)
      requires moves != [] && WinnerOf(Cells()) != None
      modifies this, p1, p2
      ensures IsGame(start, first, moves) && |moves| <= Count(start, 0)
      ensures p1.episodes == old(p1.episodes) + [Entry(start, first, pre1, moves, 0)]
      ensures p2.episodes == old(p2.episodes) + [Entry(start, first, pre2, moves, 1)]
      ensures p1.states == [] && p2.states == []
      ensures Valid() && Ready() && fresh(board)
      ensures Cells() == EmptyBoard && boardHash == None && !isEnd && playerSymbol == 1
    {
      GiveReward();
      p1.Reset();
      p2.Reset();
      Reset();
    }

    /** Plays `rounds` rounds of self-play. The progress report is not
        modelled. */
    method Play(rounds: nat) returns (ghost games: seq<seq<Cell>>)
      requires Valid() && Ready() && p1 != p2
      modifies this, board, p1, p2
      ensures Valid() && Ready()
      ensures old(isEnd) ==>
        games == [] && isEnd && board == old(board) && Cells() == old(Cells()) &&
        playerSymbol == old(playerSymbol) && boardHash == old(boardHash) &&
        p1.states == old(p1.states) && p2.states == old(p2.states) &&
        p1.episodes == old(p1.episodes) && p2.episodes == old(p2.episodes)
      ensures !old(isEnd) ==>
        |games| == rounds && AllGames(old(Cells()), old(playerSymbol), games) &&
        p1.episodes == old(p1.episodes) + Log(old(Cells()), old(playerSymbol), old(p1.states), games, 0) &&
        p2.episodes == old(p2.episodes) + Log(old(Cells()), old(playerSymbol), old(p2.states), games, 1)
      ensures rounds == 0 ==>
        board == old(board) && Cells() == old(Cells()) && playerSymbol == old(playerSymbol) &&
        isEnd == old(isEnd) && boardHash == old(boardHash) &&
        p1.states == old(p1.states) && p2.states == old(p2.states)
      ensures !old(isEnd) && rounds > 0 ==>
        p1.states == [] && p2.states == [] &&
        Cells() == EmptyBoard && playerSymbol == 1 && !isEnd && boardHash == None
    {
      games := [];
      ghost var start, first := board[..], playerSymbol;
      ghost var pre1, pre2, log1, log2 := p1.states, p2.states, p1.episodes, p2.episodes;
      for i := 0 to rounds
        invariant Valid() && Ready()
        invariant board == old(board) || fresh(board)
        invariant old(isEnd) ==>
          games == [] && isEnd && board == old(board) && Cells() == start &&
          playerSymbol == first && boardHash == old(boardHash) &&
          p1.states == pre1 && p2.states == pre2 && p1.episodes == log1 && p2.episodes == log2
        invariant !old(isEnd) ==>
          |games| == i && !isEnd && AllGames(start, first, games) &&
          p1.episodes == log1 + Log(start, first, pre1, games, 0) &&
          p2.episodes == log2 + Log(start, first, pre2, games, 1)
        invariant !old(isEnd) && i == 0 ==>
          board == old(board) && Cells() == start && playerSymbol == first && boardHash == old(boardHash) &&
          p1.states == pre1 && p2.states == pre2
        invariant !old(isEnd) && i > 0 ==>
          p1.states == [] && p2.states == [] &&
          Cells() == EmptyBoard && playerSymbol == 1 && boardHash == None
      {
        ghost var e1, e2 := p1.episodes, p2.episodes;
        ghost var g := PlayEpisode();
        if !old(isEnd) {
          LogExtends(start, first, pre1, games, g, 0, log1, e1, p1.episodes);
          LogExtends(start, first, pre2, games, g, 1, log2, e2, p2.episodes);
          AllGamesSnoc(start, first, games, g);
          games := games + [g];
        }
      }
    }
  }
}
