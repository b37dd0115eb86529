/** The 3x3 tic-tac-toe board as a value: nine cells in row-major order,
    each 0 (empty), 1 (player one) or -1 (player two), and the outcome
    rule that scans rows, then columns, then the two diagonals by the
    signed sum of their cells. */
module Board {

  /** Python's `None`-or-value results. */
  datatype Option<T> = None | Some(value: T)

  /** A grid position as the (row, column) pair the game passes around. */
  type Pos = (int, int)

  /** The index of a cell in the flattened board. */
  type Cell = k: int | 0 <= k < 9

  const Rows := 3
  const Cols := 3

  /** The board `np.zeros((3, 3))` flattened. */
  const EmptyBoard: seq<int> := [0, 0, 0, 0, 0, 0, 0, 0, 0]

  predicate ValidBoard(b: seq<int>)
  {
    |b| == Rows * Cols && forall k :: 0 <= k < |b| ==> -1 <= b[k] <= 1
  }

  /** Positions numpy accepts for a 3x3 array: negative indices count from the end. */
  predicate InBoard(p: Pos)
  {
    -Rows <= p.0 < Rows && -Cols <= p.1 < Cols
  }

  /** Positions as `availablePositions` produces them. */
  predicate InGrid(p: Pos)
  {
    0 <= p.0 < Rows && 0 <= p.1 < Cols
  }

  /** `p` comes before `q` in row-major order. */
  predicate Before(p: Pos, q: Pos)
  {
    p.0 < q.0 || (p.0 == q.0 && p.1 < q.1)
  }

  /** The flattened index numpy addresses for `board[p]`. */
  function CellIndex(p: Pos): (k: Cell)
    requires InBoard(p)
    ensures k == Cols * (p.0 % Rows) + p.1 % Cols
    ensures InGrid(p) ==> k == Cols * p.0 + p.1
  {
    var r := if p.0 < 0 then p.0 + Rows else p.0;
    var c := if p.1 < 0 then p.1 + Cols else p.1;
    Cols * r + c
  }

  /** The grid position of a flattened index. */
  function PosOf(k: Cell): (p: Pos)
    ensures InGrid(p) && CellIndex(p) == k
  {
    (k / Cols, k % Cols)
  }

  /** The three cells of line `k`: rows 0-2, columns 3-5, main diagonal 6,
      anti-diagonal 7, in the order the outcome rule scans them. */
  function LineCells(k: nat): (c: (Cell, Cell, Cell))
    requires k < 8
  {
    if k < 3 then (3 * k, 3 * k + 1, 3 * k + 2)
    else if k < 6 then (k - 3, k, k + 3)
    else if k == 6 then (0, 4, 8)
    else (2, 4, 6)
  }

  /** The lines in grid terms: line k is row k (`board[k, :]`) for k < 3,
      column k - 3 (`board[:, k - 3]`) for 3 <= k < 6, the main diagonal
      (`board[i, i]`) for 6 and the anti-diagonal (`board[i, 2 - i]`) for 7. */
  lemma LineCellsPositions(k: nat)
    requires k < 8
    ensures k < 3 ==> LineCells(k) == (CellIndex((k, 0)), CellIndex((k, 1)), CellIndex((k, 2)))
    ensures 3 <= k < 6 ==> LineCells(k) == (CellIndex((0, k - 3)), CellIndex((1, k - 3)), CellIndex((2, k - 3)))
    ensures k == 6 ==> LineCells(k) == (CellIndex((0, 0)), CellIndex((1, 1)), CellIndex((2, 2)))
    ensures k == 7 ==> LineCells(k) == (CellIndex((0, 2)), CellIndex((1, 1)), CellIndex((2, 0)))
  {
  }

  function LineSum(b: seq<int>, k: nat): int
    requires |b| == 9 && k < 8
  {
    var c := LineCells(k);
    b[c.0] + b[c.1] + b[c.2]
  }

  /** Line `k` is complete: its three cells all hold the mark `m`. */
  predicate Complete(b: seq<int>, k: nat, m: int)
    requires |b| == 9 && k < 8
  {
    var c := LineCells(k);
    b[c.0] == m && b[c.1] == m && b[c.2] == m
  }

  /** Some line sums to `s`. */
  predicate HasLine(b: seq<int>, s: int)
    requires |b| == 9
  {
    exists k :: 0 <= k < 8 && LineSum(b, k) == s
  }

  /** A line whose signed sum decides the game. */
  predicate Decides(b: seq<int>, k: nat)
    requires |b| == 9 && k < 8
  {
    LineSum(b, k) == 3 || LineSum(b, k) == -3
  }

  function Abs(x: int): int { if x < 0 then -x else x }

  function Max(x: int, y: int): int { if x < y then y else x }

  /** The row and column scan of `winner`, from line `k` on: the first
      line summing to 3 gives 1, to -3 gives -1. */
  function ScanLines(b: seq<int>, k: nat): (r: Option<int>)
    requires |b| == 9 && k <= 6
    ensures r == None || r == Some(1) || r == Some(-1)
    decreases 6 - k
  {
    if k == 6 then None
    else if LineSum(b, k) == 3 then Some(1)
    else if LineSum(b, k) == -3 then Some(-1)
    else ScanLines(b, k + 1)
  }

  /** What `winner` returns once no row or column has decided: the
      diagonals by the larger absolute sum (3 preferred over -3), then a
      tie on a full board, else no result yet. */
  function DiagonalsOrTie(b: seq<int>): (r: Option<int>)
    requires |b| == 9
    ensures r == None || r == Some(0) || r == Some(1) || r == Some(-1)
    ensures r == None ==> 0 in b
    ensures r == Some(0) ==> 0 !in b
  {
    var d1 := LineSum(b, 6);
    var d2 := LineSum(b, 7);
    if Max(Abs(d1), Abs(d2)) == 3 then
      if d1 == 3 || d2 == 3 then Some(1) else Some(-1)
    else if 0 !in b then Some(0)
    else None
  }

  /** The outcome as `winner` computes it when it resumes its scan at line `k`. */
  function WinnerFrom(b: seq<int>, k: nat): Option<int>
    requires |b| == 9 && k <= 6
  {
    match ScanLines(b, k)
    case Some(w) => Some(w)
    case None => DiagonalsOrTie(b)
  }

  /** The outcome of a board: Some(1) or Some(-1) for a win, Some(0) for a
      tie, None while the game goes on. */
  function WinnerOf(b: seq<int>): (r: Option<int>)
    requires |b| == 9
    ensures r == None || r == Some(0) || r == Some(1) || r == Some(-1)
    ensures r == None ==> 0 in b
  {
    WinnerFrom(b, 0)
  }

  /** Number of cells holding `v`. */
  function Count(b: seq<int>, v: int): (n: nat)
    ensures n <= |b|
  {
    if b == [] then 0
    else Count(b[..|b| - 1], v) + (if b[|b| - 1] == v then 1 else 0)
  }

  /** The empty cells among the first `n`, as grid positions in row-major order. */
  function EmptyCells(b: seq<int>, n: nat): (ps: seq<Pos>)
    requires n <= |b| && n <= 9
    ensures |ps| <= n
    ensures forall k :: 0 <= k < |ps| ==> InGrid(ps[k])
  {
    if n == 0 then []
    else EmptyCells(b, n - 1) + (if b[n - 1] == 0 then [PosOf(n - 1)] else [])
  }

  // ---------------------------------------------------------------------
  // Empty cells

  lemma BeforeIsIndexOrder(p: Pos, q: Pos)
    requires InGrid(p) && InGrid(q)
    ensures Before(p, q) <==> CellIndex(p) < CellIndex(q)
  {
  }

  /** The empty-cell list holds exactly the empty cells, each once, in
      row-major order, as many as the count of zeros. */
  lemma {:induction false} EmptyCellsExact(b: seq<int>, n: nat)
    requires |b| == 9 && n <= 9
    ensures forall k :: 0 <= k < |EmptyCells(b, n)| ==>
      InGrid(EmptyCells(b, n)[k]) && CellIndex(EmptyCells(b, n)[k]) < n && b[CellIndex(EmptyCells(b, n)[k])] == 0
    ensures forall c: Cell :: c < n && b[c] == 0 ==> PosOf(c) in EmptyCells(b, n)
    ensures forall k, l :: 0 <= k < l < |EmptyCells(b, n)| ==> Before(EmptyCells(b, n)[k], EmptyCells(b, n)[l])
    ensures |EmptyCells(b, n)| == Count(b[..n], 0)
  {
    if n > 0 {
      EmptyCellsExact(b, n - 1);
      var ps, prev := EmptyCells(b, n), EmptyCells(b, n - 1);
      assert b[..n][..n - 1] == b[..n - 1];
      forall k, l | 0 <= k < l < |ps| ensures Before(ps[k], ps[l]) {
        if l == |prev| {
          BeforeIsIndexOrder(ps[k], ps[l]);
        }
      }
    }
  }

  /** No empty cell is listed exactly when the board is full. */
  lemma EmptyCellsNone(b: seq<int>)
    requires |b| == 9
    ensures EmptyCells(b, 9) == [] <==> 0 !in b
  {
    EmptyCellsExact(b, 9);
    assert b[..9] == b;
    CountZeroIffAbsent(b, 0);
  }

  // ---------------------------------------------------------------------
  // Lines and their signed sums

  /** On a valid board the signed-sum test is the three-in-a-row test. */
  lemma LineSumMeaning(b: seq<int>, k: nat)
    requires ValidBoard(b) && k < 8
    ensures LineSum(b, k) == 3 <==> Complete(b, k, 1)
    ensures LineSum(b, k) == -3 <==> Complete(b, k, -1)
    ensures -3 <= LineSum(b, k) <= 3
  {
  }

  /** The scan over rows and columns finds nothing exactly when no line
      in it decides, and otherwise reports the first deciding line. */
  lemma {:induction false} ScanLinesFirst(b: seq<int>, k: nat)
    requires |b| == 9 && k <= 6
    ensures ScanLines(b, k) == None <==> forall j :: k <= j < 6 ==> !Decides(b, j)
    ensures ScanLines(b, k) != None ==>
      exists j :: k <= j < 6 && Decides(b, j) && ScanLines(b, k) == Some(LineSum(b, j) / 3) &&
        forall i :: k <= i < j ==> !Decides(b, i)
    decreases 6 - k
  {
    if k < 6 {
      ScanLinesFirst(b, k + 1);
      if !Decides(b, k) && ScanLines(b, k + 1) != None {
        var j :| k + 1 <= j < 6 && Decides(b, j) && ScanLines(b, k + 1) == Some(LineSum(b, j) / 3) &&
          forall i :: k + 1 <= i < j ==> !Decides(b, i);
        assert forall i :: k <= i < j ==> !Decides(b, i);
      }
    }
  }

  /** Rows before columns: the first row or column in scan order whose sum
      is 3 or -3 decides the winner, whatever the later lines hold. */
  lemma WinnerScanOrder(b: seq<int>, j: nat)
    requires |b| == 9 && j < 6 && Decides(b, j)
    requires forall i :: 0 <= i < j ==> !Decides(b, i)
    ensures WinnerOf(b) == Some(if LineSum(b, j) == 3 then 1 else -1)
  {
    ScanLinesFirst(b, 0);
    var j' :| 0 <= j' < 6 && Decides(b, j') && ScanLines(b, 0) == Some(LineSum(b, j') / 3) &&
      forall i :: 0 <= i < j' ==> !Decides(b, i);
    assert j' == j;
  }

  /** When no row or column decides, a diagonal summing to 3 wins for
      player one even if the other diagonal sums to -3. */
  lemma WinnerDiagonals(b: seq<int>)
    requires ValidBoard(b)
    requires forall i :: 0 <= i < 6 ==> !Decides(b, i)
    ensures (LineSum(b, 6) == 3 || LineSum(b, 7) == 3) ==> WinnerOf(b) == Some(1)
    ensures LineSum(b, 6) != 3 && LineSum(b, 7) != 3 && (LineSum(b, 6) == -3 || LineSum(b, 7) == -3)
      ==> WinnerOf(b) == Some(-1)
  {
    ScanLinesFirst(b, 0);
    LineSumMeaning(b, 6);
    LineSumMeaning(b, 7);
  }

  /** The outcome against the lines of the board: a win is reported only
      for a line of that player, a tie exactly when no line is complete
      and no cell is empty, and no result exactly when no line is complete
      and some cell is empty. */
  lemma WinnerCharacterization(b: seq<int>)
    requires ValidBoard(b)
    ensures WinnerOf(b) == Some(1) ==> HasLine(b, 3)
    ensures WinnerOf(b) == Some(-1) ==> HasLine(b, -3)
    ensures WinnerOf(b) == Some(0) <==> !HasLine(b, 3) && !HasLine(b, -3) && 0 !in b
    ensures WinnerOf(b) == None <==> !HasLine(b, 3) && !HasLine(b, -3) && 0 in b
    ensures WinnerOf(b) == None || WinnerOf(b) == Some(0) || WinnerOf(b) == Some(1) || WinnerOf(b) == Some(-1)
  {
    ScanLinesFirst(b, 0);
    LineSumMeaning(b, 6);
    LineSumMeaning(b, 7);
    if ScanLines(b, 0) != None {
      var j :| 0 <= j < 6 && Decides(b, j) && ScanLines(b, 0) == Some(LineSum(b, j) / 3) &&
        forall i :: 0 <= i < j ==> !Decides(b, i);
      assert WinnerOf(b) == Some(1) ==> LineSum(b, j) == 3;
      assert WinnerOf(b) == Some(-1) ==> LineSum(b, j) == -3;
    } else {
      if HasLine(b, 3) || HasLine(b, -3) {
        var k :| 0 <= k < 8 && (LineSum(b, k) == 3 || LineSum(b, k) == -3);
        assert k == 6 || k == 7 by {
          if k < 6 { assert Decides(b, k); }
        }
      }
    }
  }

  /** The empty board has no result yet. */
  lemma EmptyBoardUndecided()
    ensures ValidBoard(EmptyBoard) && WinnerOf(EmptyBoard) == None
  {
    assert EmptyBoard[0] == 0;
  }

  // ---------------------------------------------------------------------
  // Counting marks

  lemma {:induction false} CountUpdate(b: seq<int>, k: nat, v: int, w: int)
    requires k < |b|
    ensures Count(b[k := v], w) ==
      Count(b, w) - (if b[k] == w then 1 else 0) + (if v == w then 1 else 0)
    decreases |b|
  {
    var n := |b| - 1;
    if k == n {
      assert b[k := v][..n] == b[..n];
    } else {
      assert b[k := v][..n] == b[..n][k := v];
      CountUpdate(b[..n], k, v, w);
    }
  }

  lemma {:induction false} CountZeroIffAbsent(b: seq<int>, v: int)
    ensures Count(b, v) == 0 <==> v !in b
    decreases |b|
  {
    if b != [] {
      var n := |b| - 1;
      CountZeroIffAbsent(b[..n], v);
      assert b == b[..n] + [b[n]];
    }
  }

  /** On a valid board every cell is counted as empty, one mark or the other. */
  lemma {:induction false} CountPartition(b: seq<int>)
    requires forall k :: 0 <= k < |b| ==> -1 <= b[k] <= 1
    ensures Count(b, 1) + Count(b, -1) + Count(b, 0) == |b|
    decreases |b|
  {
    if b != [] {
      CountPartition(b[..|b| - 1]);
    }
  }

  lemma EmptyBoardCounts()
    ensures Count(EmptyBoard, 0) == 9 && Count(EmptyBoard, 1) == 0 && Count(EmptyBoard, -1) == 0
  {
    CountPartition(EmptyBoard);
    CountZeroIffAbsent(EmptyBoard, 1);
    CountZeroIffAbsent(EmptyBoard, -1);
  }
}
