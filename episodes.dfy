/** Self-play games as sequences of moves: the boards they pass through,
    the fingerprints each player records, the rewards at the end, and the
    invariants that alternating play keeps. */
module Episodes {
  import opened Board

  /** The mark placed by move `k` when the first move places `s`: the
      turn flips after every move. */
  function SymAt(s: int, k: nat): int
  {
    if k % 2 == 0 then s else -s
  }

  /** The board after playing the cells `ms` in turn from `b`, the first
      move placing `s`. */
  function Replay(b: seq<int>, s: int, ms: seq<Cell>): (r: seq<int>)
    requires |b| == 9
    ensures |r| == 9
  {
    if ms == [] then b
    else Replay(b, s, ms[..|ms| - 1])[ms[|ms| - 1] := SymAt(s, |ms| - 1)]
  }

  /** The fingerprint after each move, in play order. */
  function Boards(b: seq<int>, s: int, ms: seq<Cell>): (r: seq<seq<int>>)
    requires |b| == 9
    ensures |r| == |ms|
  {
    if ms == [] then []
    else Boards(b, s, ms[..|ms| - 1]) + [Replay(b, s, ms)]
  }

  /** Every move goes to a cell that is empty at that time, and no move
      is made once the board has an outcome. */
  ghost predicate Legal(b: seq<int>, s: int, ms: seq<Cell>)
    requires |b| == 9
  {
    if ms == [] then true
    else
      var before := Replay(b, s, ms[..|ms| - 1]);
      Legal(b, s, ms[..|ms| - 1]) && WinnerOf(before) == None && before[ms[|ms| - 1]] == 0
  }

  /** One complete game: legal moves up to the first board with an outcome. */
  ghost predicate IsGame(b: seq<int>, s: int, ms: seq<Cell>)
    requires |b| == 9
    ensures IsGame(b, s, ms) ==> ms != [] && WinnerOf(Replay(b, s, ms[..|ms| - 1])) == None
  {
    |ms| > 0 && Legal(b, s, ms) && WinnerOf(Replay(b, s, ms)) != None
  }

  /** The entries of `bs` at the positions of one player's moves: parity 0
      for the player who moves first, 1 for the other. */
  function Trace<T>(bs: seq<T>, parity: nat): (r: seq<T>)
    ensures |r| <= |bs|
  {
    if bs == [] then []
    else Trace(bs[..|bs| - 1], parity) + (if (|bs| - 1) % 2 == parity then [bs[|bs| - 1]] else [])
  }

  /** The rewards `giveReward` hands to (player one, player two) for an outcome. */
  function Reward(result: Option<int>): (r: (real, real))
    ensures result == Some(1) || result == Some(-1) ==>
      r.0 + r.1 == 1.0 && (r.0 == 1.0 <==> result == Some(1))
    ensures result != Some(1) && result != Some(-1) ==> r.0 < r.1 && r.0 + r.1 == 0.6
  {
    match result
    case Some(1) => (1.0, 0.0)
    case Some(-1) => (0.0, 1.0)
    case _ => (0.1, 0.5)
  }

  /** What one player is fed at the end of a game: the trace it held
      before the game followed by the fingerprints after its own moves,
      and its reward for the outcome. */
  function Entry(b: seq<int>, s: int, pre: seq<seq<int>>, g: seq<Cell>, parity: nat): (r: (seq<seq<int>>, real))
    requires |b| == 9
    ensures |pre| <= |r.0| <= |pre| + |g| && r.0[..|pre|] == pre
  {
    var reward := Reward(WinnerOf(Replay(b, s, g)));
    (pre + Trace(Boards(b, s, g), parity), if parity == 0 then reward.0 else reward.1)
  }

  /** The entries of a run of games: the first starts from `b` with `s` to
      move and the trace `pre`, every later one from the reset state. */
  function Log(b: seq<int>, s: int, pre: seq<seq<int>>, gs: seq<seq<Cell>>, parity: nat): (r: seq<(seq<seq<int>>, real)>)
    requires |b| == 9
    ensures |r| == |gs|
  {
    if gs == [] then []
    else
      Log(b, s, pre, gs[..|gs| - 1], parity) +
        [if |gs| == 1 then Entry(b, s, pre, gs[0], parity) else Entry(EmptyBoard, 1, [], gs[|gs| - 1], parity)]
  }

  /** Each game of a run is complete, the first from `b` with `s` to move,
      the others from the reset board with player one to move. */
  ghost predicate AllGames(b: seq<int>, s: int, gs: seq<seq<Cell>>)
    requires |b| == 9
  {
    forall k :: 0 <= k < |gs| ==>
      if k == 0 then IsGame(b, s, gs[k]) else IsGame(EmptyBoard, 1, gs[k])
  }

  /** A run of games grows by one game at a time. */
  lemma LogSnoc(b: seq<int>, s: int, pre: seq<seq<int>>, gs: seq<seq<Cell>>, g: seq<Cell>, parity: nat)
    requires |b| == 9
    ensures Log(b, s, pre, gs + [g], parity) ==
      Log(b, s, pre, gs, parity) + [if gs == [] then Entry(b, s, pre, g, parity) else Entry(EmptyBoard, 1, [], g, parity)]
  {
    assert (gs + [g])[..|gs|] == gs;
  }

  /** A player's feed grows by the entry of each game played. */
  lemma LogExtends(b: seq<int>, s: int, pre: seq<seq<int>>, gs: seq<seq<Cell>>, g: seq<Cell>, parity: nat,
                   log: seq<(seq<seq<int>>, real)>, before: seq<(seq<seq<int>>, real)>, after: seq<(seq<seq<int>>, real)>)
    requires |b| == 9 && before == log + Log(b, s, pre, gs, parity)
    requires after == before + [if gs == [] then Entry(b, s, pre, g, parity) else Entry(EmptyBoard, 1, [], g, parity)]
    ensures after == log + Log(b, s, pre, gs + [g], parity)
  {
    LogSnoc(b, s, pre, gs, g, parity);
  }

  lemma AllGamesSnoc(b: seq<int>, s: int, gs: seq<seq<Cell>>, g: seq<Cell>)
    requires |b| == 9 && AllGames(b, s, gs)
    requires if gs == [] then IsGame(b, s, g) else IsGame(EmptyBoard, 1, g)
    ensures AllGames(b, s, gs + [g])
  {
  }

  /** Whose turn it is follows from the marks: with 1 to move both players
      have as many marks, with -1 to move player one has one more. */
  ghost predicate TurnInv(b: seq<int>, s: int)
  {
    (s == 1 && Count(b, 1) == Count(b, -1)) ||
    (s == -1 && Count(b, 1) == Count(b, -1) + 1)
  }

  /** The record of a round in progress, given the board `cells`, the mark
      `sym` to move and the two players' traces: the moves so far are legal
      and replay to the board, the turn has passed once per move, and each
      player's trace has grown by the fingerprints after its own moves. */
  ghost predicate InRound(start: seq<int>, first: int, moves: seq<Cell>, pre1: seq<seq<int>>, pre2: seq<seq<int>>,
                          cells: seq<int>, sym: int, st1: seq<seq<int>>, st2: seq<seq<int>>)
    requires |start| == 9
  {
    Legal(start, first, moves) && cells == Replay(start, first, moves) &&
    sym == SymAt(first, |moves|) && |moves| <= Count(start, 0) &&
    st1 == pre1 + Trace(Boards(start, first, moves), 0) &&
    st2 == pre2 + Trace(Boards(start, first, moves), 1)
  }

  // ---------------------------------------------------------------------
  // Lemmas

  lemma ParityNext(n: nat)
    ensures (n + 1) % 2 == 1 - n % 2
  {
  }

  lemma SymAtNext(s: int, k: nat)
    ensures SymAt(s, k + 1) == -SymAt(s, k)
  {
  }

  lemma {:induction false} LegalPrefix(b: seq<int>, s: int, ms: seq<Cell>, k: nat)
    requires |b| == 9 && Legal(b, s, ms) && k <= |ms|
    ensures Legal(b, s, ms[..k])
    decreases |ms|
  {
    if k < |ms| {
      var n := |ms| - 1;
      assert ms[..n][..k] == ms[..k];
      LegalPrefix(b, s, ms[..n], k);
    } else {
      assert ms[..k] == ms;
    }
  }

  /** Each legal move fills exactly one empty cell with a mark: the board
      stays valid and loses one empty cell per move, so a game from a
      board with `e` empty cells has at most `e` moves. */
  lemma {:induction false} LegalFillsEmptyCells(b: seq<int>, s: int, ms: seq<Cell>)
    requires ValidBoard(b) && (s == 1 || s == -1) && Legal(b, s, ms)
    ensures ValidBoard(Replay(b, s, ms))
    ensures Count(Replay(b, s, ms), 0) == Count(b, 0) - |ms|
    ensures |ms| <= Count(b, 0)
    decreases |ms|
  {
    if ms != [] {
      var n := |ms| - 1;
      var before := Replay(b, s, ms[..n]);
      LegalFillsEmptyCells(b, s, ms[..n]);
      CountUpdate(before, ms[n], SymAt(s, n), 0);
    }
  }

  /** A cell once played keeps its mark for the rest of the game. */
  lemma {:induction false} PlayedCellsStayMarked(b: seq<int>, s: int, ms: seq<Cell>, i: nat)
    requires |b| == 9 && (s == 1 || s == -1) && Legal(b, s, ms) && i < |ms|
    ensures Replay(b, s, ms)[ms[i]] != 0
    decreases |ms|
  {
    var n := |ms| - 1;
    if i < n {
      PlayedCellsStayMarked(b, s, ms[..n], i);
    }
  }

  /** No cell is played twice in a legal sequence of moves. */
  lemma MovesDistinct(b: seq<int>, s: int, ms: seq<Cell>)
    requires |b| == 9 && (s == 1 || s == -1) && Legal(b, s, ms)
    ensures forall i, j :: 0 <= i < j < |ms| ==> ms[i] != ms[j]
  {
    forall i, j | 0 <= i < j < |ms| ensures ms[i] != ms[j] {
      LegalPrefix(b, s, ms, j + 1);
      var p := ms[..j + 1];
      assert p[..j] == ms[..j];
      PlayedCellsStayMarked(b, s, ms[..j], i);
    }
  }

  /** Alternating play keeps the mark-count invariant: whoever is to move
      after `ms` is determined by the counts of the two marks. */
  lemma {:induction false} TurnInvPreserved(b: seq<int>, s: int, ms: seq<Cell>)
    requires |b| == 9 && TurnInv(b, s) && Legal(b, s, ms)
    ensures TurnInv(Replay(b, s, ms), SymAt(s, |ms|))
    decreases |ms|
  {
    if ms != [] {
      var n := |ms| - 1;
      var before := Replay(b, s, ms[..n]);
      TurnInvPreserved(b, s, ms[..n]);
      CountUpdate(before, ms[n], SymAt(s, n), 1);
      CountUpdate(before, ms[n], SymAt(s, n), -1);
    }
  }

  /** Before every move of a legal sequence started in turn order, the mover
      is 1 exactly when both players have as many marks, and otherwise
      player one has exactly one mark more. */
  lemma TurnInvBeforeEachMove(b: seq<int>, s: int, ms: seq<Cell>, k: nat)
    requires |b| == 9 && TurnInv(b, s) && Legal(b, s, ms) && k <= |ms|
    ensures TurnInv(Replay(b, s, ms[..k]), SymAt(s, k))
  {
    LegalPrefix(b, s, ms, k);
    TurnInvPreserved(b, s, ms[..k]);
  }

  /** A game from the reset board has at most nine moves, no cell played
      twice, and the mark-count invariant holds before each move. */
  lemma GameFromReset(ms: seq<Cell>)
    requires IsGame(EmptyBoard, 1, ms)
    ensures 1 <= |ms| <= 9
    ensures forall i, j :: 0 <= i < j < |ms| ==> ms[i] != ms[j]
    ensures forall k :: 0 <= k <= |ms| ==> TurnInv(Replay(EmptyBoard, 1, ms[..k]), SymAt(1, k))
  {
    EmptyBoardCounts();
    EmptyBoardUndecided();
    LegalFillsEmptyCells(EmptyBoard, 1, ms);
    MovesDistinct(EmptyBoard, 1, ms);
    forall k | 0 <= k <= |ms| ensures TurnInv(Replay(EmptyBoard, 1, ms[..k]), SymAt(1, k)) {
      TurnInvBeforeEachMove(EmptyBoard, 1, ms, k);
    }
  }

  /** The fingerprints are the boards after each prefix of the moves. */
  lemma {:induction false} BoardsAt(b: seq<int>, s: int, ms: seq<Cell>, k: nat)
    requires |b| == 9 && k < |ms|
    ensures Boards(b, s, ms)[k] == Replay(b, s, ms[..k + 1])
    decreases |ms|
  {
    var n := |ms| - 1;
    if k < n {
      BoardsAt(b, s, ms[..n], k);
      assert ms[..n][..k + 1] == ms[..k + 1];
    } else {
      assert ms[..k + 1] == ms;
    }
  }

  /** A player's trace holds exactly the entries at its own turns: the
      `i`-th entry of the trace for `parity` is entry `2 * i + parity`. */
  lemma {:induction false} TraceAt<T>(bs: seq<T>, parity: nat, i: nat)
    requires parity < 2
    ensures |Trace(bs, parity)| == (|bs| + 1 - parity) / 2
    ensures 2 * i + parity < |bs| ==> Trace(bs, parity)[i] == bs[2 * i + parity]
    decreases |bs|
  {
    if bs != [] {
      var n := |bs| - 1;
      TraceAt(bs[..n], parity, i);
      var q, r := n / 2, n % 2;
      assert n == 2 * q + r && 0 <= r < 2;
      if parity == 0 {
        assert (n + 1) / 2 == q + r && (n + 2) / 2 == q + 1;
      } else {
        assert n / 2 == q && (n + 1) / 2 == q + r;
      }
    }
  }

  /** Each player's recorded fingerprints are the boards right after its
      own moves: the `i`-th fingerprint of the player moving first is the
      board after move `2 * i`, of the other player after move `2 * i + 1`. */
  lemma TraceIsOwnMoves(b: seq<int>, s: int, ms: seq<Cell>, parity: nat, i: nat)
    requires |b| == 9 && parity < 2 && 2 * i + parity < |ms|
    ensures |Trace(Boards(b, s, ms), parity)| == (|ms| + 1 - parity) / 2
    ensures Trace(Boards(b, s, ms), parity)[i] == Replay(b, s, ms[..2 * i + parity + 1])
  {
    TraceAt(Boards(b, s, ms), parity, i);
    BoardsAt(b, s, ms, 2 * i + parity);
  }
  /** One legal move extends the record of a round: the longer move list
      is legal, replays to the new board and leaves one empty cell fewer,
      the turn passes, and the fingerprint after the move joins the trace
      of the player who made it while the other trace stays as it was. */
  lemma Advance(start: seq<int>, first: int, moves: seq<Cell>, pre1: seq<seq<int>>, pre2: seq<seq<int>>,
                cells: seq<int>, sym: int, st1: seq<seq<int>>, st2: seq<seq<int>>,
                cell: Cell, st1': seq<seq<int>>, st2': seq<seq<int>>)
    requires ValidBoard(start) && (first == 1 || first == -1)
    requires InRound(start, first, moves, pre1, pre2, cells, sym, st1, st2)
    requires WinnerOf(cells) == None && cells[cell] == 0
    requires |moves| % 2 == 0 ==> st1' == st1 + [cells[cell := sym]] && st2' == st2
    requires |moves| % 2 == 1 ==> st1' == st1 && st2' == st2 + [cells[cell := sym]]
    ensures InRound(start, first, moves + [cell], pre1, pre2, cells[cell := sym], -sym, st1', st2')
  {
    AdvanceBoard(start, first, moves, cells, sym, cell);
    AdvanceTraces(start, first, moves, pre1, pre2, st1, st2, cell, st1', st2');
  }

  /** The board half of `Advance`: the move stays legal and replays to the new board. */
  lemma AdvanceBoard(start: seq<int>, first: int, moves: seq<Cell>, cells: seq<int>, sym: int, cell: Cell)
    requires ValidBoard(start) && (first == 1 || first == -1) && Legal(start, first, moves)
    requires cells == Replay(start, first, moves) && sym == SymAt(first, |moves|)
    requires WinnerOf(cells) == None && cells[cell] == 0
    ensures Legal(start, first, moves + [cell]) && cells[cell := sym] == Replay(start, first, moves + [cell])
    ensures -sym == SymAt(first, |moves + [cell]|) && |moves + [cell]| <= Count(start, 0)
  {
    var ms := moves + [cell];
    assert ms[..|moves|] == moves;
    LegalFillsEmptyCells(start, first, ms);
    SymAtNext(first, |moves|);
  }

  /** The trace half of `Advance`: the fingerprint after the move joins the
      trace of the player who made it. */
  lemma AdvanceTraces(start: seq<int>, first: int, moves: seq<Cell>, pre1: seq<seq<int>>, pre2: seq<seq<int>>,
                      st1: seq<seq<int>>, st2: seq<seq<int>>, cell: Cell, st1': seq<seq<int>>, st2': seq<seq<int>>)
    requires |start| == 9
    requires st1 == pre1 + Trace(Boards(start, first, moves), 0) && st2 == pre2 + Trace(Boards(start, first, moves), 1)
    requires |moves| % 2 == 0 ==> st1' == st1 + [Replay(start, first, moves + [cell])] && st2' == st2
    requires |moves| % 2 == 1 ==> st1' == st1 && st2' == st2 + [Replay(start, first, moves + [cell])]
    ensures st1' == pre1 + Trace(Boards(start, first, moves + [cell]), 0)
    ensures st2' == pre2 + Trace(Boards(start, first, moves + [cell]), 1)
  {
    var ms := moves + [cell];
    assert ms[..|moves|] == moves;
    var bs := Boards(start, first, ms);
    assert bs[..|moves|] == Boards(start, first, moves);
  }
}
