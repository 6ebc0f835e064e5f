/** The exact tic-tac-toe solver of X_O_game.py.

    The board is a 3x3 grid of ' ', 'X' and 'O' that the search mutates in
    place: it writes a mark, recurses, and writes ' ' back.  The grid is an
    `array2<char>`; `Snapshot` views it as a row-major sequence of nine
    characters, on which the specification functions are stated. */
module TicTacToe {
  import opened Wrappers
  import opened ExtInts
  import opened Selection

  /** A board as a value: the nine cells in row-major order. */
  type Grid = g: seq<char> | |g| == 9 witness "         "

  /** A (row, column) pair. */
  type Cell = (int, int)

  predicate ValidCell(c: Cell)
  {
    0 <= c.0 < 3 && 0 <= c.1 < 3
  }

  /** The row-major position of a cell. */
  function Index(c: Cell): int
  {
    3 * c.0 + c.1
  }

  function CellOf(k: int): (c: Cell)
    requires 0 <= k < 9
    ensures ValidCell(c) && Index(c) == k
  {
    (k / 3, k % 3)
  }

  function At(g: Grid, c: Cell): char
    requires ValidCell(c)
  {
    g[Index(c)]
  }

  /** The grid after writing mark into cell c. */
  function Place(g: Grid, c: Cell, mark: char): (g': Grid)
    requires ValidCell(c)
    ensures At(g', c) == mark
    ensures forall d :: ValidCell(d) && d != c ==> At(g', d) == At(g, d)
  {
    g[Index(c) := mark]
  }

  predicate IsBoard(board: array2<char>)
  {
    board.Length0 == 3 && board.Length1 == 3
  }

  /** The value of the board, row by row. */
  function Snapshot(board: array2<char>): (g: Grid)
    requires IsBoard(board)
    reads board
  {
    [board[0, 0], board[0, 1], board[0, 2],
     board[1, 0], board[1, 1], board[1, 2],
     board[2, 0], board[2, 1], board[2, 2]]
  }

  // ---------------------------------------------------------------------------
  // Lines

  type Line = seq<Cell>

  predicate ValidLine(line: Line)
  {
    |line| == 3 && forall a :: 0 <= a < 3 ==> ValidCell(line[a])
  }

  /** The cells of row num, left to right. */
  function Row(num: int): Line
  {
    [(num, 0), (num, 1), (num, 2)]
  }

  /** The cells of column num, top to bottom. */
  function Column(num: int): Line
  {
    [(0, num), (1, num), (2, num)]
  }

  const FirstDiagonal: Line := [(0, 0), (1, 1), (2, 2)]
  const SecondDiagonal: Line := [(0, 2), (1, 1), (2, 0)]

  /** The eight lines in the order check_winner scans them: the rows, the
      columns, the main diagonal, the anti-diagonal. */
  const Lines: seq<Line> := [Row(0), Row(1), Row(2), Column(0), Column(1), Column(2),
                             FirstDiagonal, SecondDiagonal]

  lemma LinesAreValid()
    ensures |Lines| == 8
    ensures forall k :: 0 <= k < 8 ==> ValidLine(Lines[k])
  {
  }

  /** horizontal_traversal: the three cells of row num. */
  method HorizontalTraversal(num: int) returns (indices: Line)
    ensures |indices| == 3 && forall i :: 0 <= i < 3 ==> indices[i] == (num, i)
    ensures indices == Row(num)
  {
    indices := [];
    for i := 0 to 3
      invariant |indices| == i && forall a :: 0 <= a < i ==> indices[a] == (num, a)
    {
      indices := indices + [(num, i)];
    }
  }

  /** vertical_traversal: the three cells of column num. */
  method VerticalTraversal(num: int) returns (indices: Line)
    ensures |indices| == 3 && forall i :: 0 <= i < 3 ==> indices[i] == (i, num)
    ensures indices == Column(num)
  {
    indices := [];
    for i := 0 to 3
      invariant |indices| == i && forall a :: 0 <= a < i ==> indices[a] == (a, num)
    {
      indices := indices + [(i, num)];
    }
  }

  /** Three equal cells that are not blank. */
  predicate LineWon(g: Grid, line: Line)
  {
    ValidLine(line) &&
    At(g, line[0]) == At(g, line[1]) && At(g, line[1]) == At(g, line[2]) && At(g, line[2]) != ' '
  }

  /** The scan of check_winner from the k-th line on. */
  function CheckWinnerFrom(g: Grid, k: nat): Option<char>
    requires k <= 8
    decreases 8 - k
  {
    LinesAreValid();
    if k == 8 then None
    else if LineWon(g, Lines[k]) then Some(At(g, Lines[k][0]))
    else CheckWinnerFrom(g, k + 1)
  }

  /** check_winner: the mark of the first full line in scan order, or None. */
  function CheckWinner(g: Grid): Option<char>
  {
    CheckWinnerFrom(g, 0)
  }

  lemma {:induction false} CheckWinnerFromIsFirstLine(g: Grid, k: nat)
    requires k <= 8
    ensures CheckWinnerFrom(g, k).None? <==> forall j :: k <= j < 8 ==> !LineWon(g, Lines[j])
    ensures CheckWinnerFrom(g, k).Some? ==>
      exists j :: k <= j < 8 && LineWon(g, Lines[j]) && CheckWinnerFrom(g, k).value == At(g, Lines[j][0])
        && forall j' :: k <= j' < j ==> !LineWon(g, Lines[j'])
    decreases 8 - k
  {
    LinesAreValid();
    if k < 8 {
      if LineWon(g, Lines[k]) {
        assert CheckWinnerFrom(g, k) == Some(At(g, Lines[k][0]));
      } else {
        assert CheckWinnerFrom(g, k) == CheckWinnerFrom(g, k + 1);
        CheckWinnerFromIsFirstLine(g, k + 1);
        if CheckWinnerFrom(g, k + 1).Some? {
          var j :| k + 1 <= j < 8 && LineWon(g, Lines[j]) && CheckWinnerFrom(g, k + 1).value == At(g, Lines[j][0])
            && forall j' :: k + 1 <= j' < j ==> !LineWon(g, Lines[j']);
          assert forall j' :: k <= j' < j ==> !LineWon(g, Lines[j']);
        }
      }
    }
  }

  /** check_winner returns a mark exactly when some line is full, and then the
      mark of the first full line in the order rows, columns, main diagonal,
      anti-diagonal; that mark is never the blank. */
  lemma CheckWinnerIsFirstLine(g: Grid)
    ensures CheckWinner(g).None? <==> forall j :: 0 <= j < 8 ==> !LineWon(g, Lines[j])
    ensures CheckWinner(g).Some? ==> CheckWinner(g).value != ' '
    ensures CheckWinner(g).Some? ==>
      exists j :: 0 <= j < 8 && LineWon(g, Lines[j]) && CheckWinner(g).value == At(g, Lines[j][0])
        && forall j' :: 0 <= j' < j ==> !LineWon(g, Lines[j'])
  {
    CheckWinnerFromIsFirstLine(g, 0);
  }

  /** is_board_full. */
  function IsFull(g: Grid): (full: bool)
    ensures full <==> forall c :: ValidCell(c) ==> At(g, c) != ' '
  {
    assert forall k :: 0 <= k < 9 ==> g[k] == At(g, CellOf(k));
    ' ' !in g
  }

  // ---------------------------------------------------------------------------
  // Empty cells

  /** The blank cells among the first k in row-major order. */
  function EmptyBefore(g: Grid, k: nat): seq<Cell>
    requires k <= 9
  {
    if k == 0 then []
    else EmptyBefore(g, k - 1) + (if g[k - 1] == ' ' then [CellOf(k - 1)] else [])
  }

  /** What get_empty_cells returns. */
  function EmptyCells(g: Grid): seq<Cell>
  {
    EmptyBefore(g, 9)
  }

  lemma {:induction false} EmptyBeforeSound(g: Grid, k: nat)
    requires k <= 9
    ensures forall a :: 0 <= a < |EmptyBefore(g, k)| ==>
      ValidCell(EmptyBefore(g, k)[a]) && Index(EmptyBefore(g, k)[a]) < k && At(g, EmptyBefore(g, k)[a]) == ' '
  {
    if k > 0 {
      EmptyBeforeSound(g, k - 1);
    }
  }

  lemma {:induction false} EmptyBeforeSortedAndComplete(g: Grid, k: nat)
    requires k <= 9
    ensures forall a, b :: 0 <= a < b < |EmptyBefore(g, k)| ==> Index(EmptyBefore(g, k)[a]) < Index(EmptyBefore(g, k)[b])
    ensures forall x :: 0 <= x < k && g[x] == ' ' ==> CellOf(x) in EmptyBefore(g, k)
  {
    if k > 0 {
      EmptyBeforeSound(g, k - 1);
      EmptyBeforeSortedAndComplete(g, k - 1);
    }
  }

  /** Every listed cell is a valid blank cell. */
  lemma EmptyCellsSound(g: Grid)
    ensures forall a :: 0 <= a < |EmptyCells(g)| ==> ValidCell(EmptyCells(g)[a]) && At(g, EmptyCells(g)[a]) == ' '
  {
    EmptyBeforeSound(g, 9);
  }

  /** get_empty_cells returns exactly the blank cells, in row-major order and so
      without repetition. */
  lemma EmptyCellsExact(g: Grid)
    ensures forall c :: c in EmptyCells(g) <==> ValidCell(c) && At(g, c) == ' '
    ensures forall a, b :: 0 <= a < b < |EmptyCells(g)| ==> Index(EmptyCells(g)[a]) < Index(EmptyCells(g)[b])
  {
    EmptyBeforeSound(g, 9);
    EmptyBeforeSortedAndComplete(g, 9);
    assert forall c :: ValidCell(c) ==> CellOf(Index(c)) == c;
  }

  /** The board is full exactly when it has no empty cell. */
  lemma FullIffNoEmptyCells(g: Grid)
    ensures IsFull(g) <==> EmptyCells(g) == []
  {
    EmptyCellsExact(g);
    EmptyCellsSound(g);
    if EmptyCells(g) != [] {
      var c := EmptyCells(g)[0];
      assert ValidCell(c) && At(g, c) == ' ';
    }
    if !IsFull(g) {
      var c :| ValidCell(c) && At(g, c) == ' ';
      assert c in EmptyCells(g);
    }
  }

  /** Marking an empty cell leaves one empty cell fewer. */
  lemma {:induction false} PlaceShrinks(g: Grid, c: Cell, mark: char, k: nat)
    requires ValidCell(c) && At(g, c) == ' ' && mark != ' ' && k <= 9
    ensures |EmptyBefore(Place(g, c, mark), k)| == |EmptyBefore(g, k)| - (if Index(c) < k then 1 else 0)
  {
    if k > 0 {
      PlaceShrinks(g, c, mark, k - 1);
    }
  }

  lemma EmptyCellsShrink(g: Grid, c: Cell, mark: char)
    requires ValidCell(c) && At(g, c) == ' ' && mark != ' '
    ensures |EmptyCells(Place(g, c, mark))| == |EmptyCells(g)| - 1
  {
    PlaceShrinks(g, c, mark, 9);
  }

  /** get_empty_cells: the nested row/column loop. */
  method GetEmptyCells(board: array2<char>) returns (emptyCells: seq<Cell>)
    requires IsBoard(board)
    ensures emptyCells == EmptyCells(Snapshot(board))
  {
    ghost var g := Snapshot(board);
    emptyCells := [];
    for i := 0 to 3
      invariant emptyCells == EmptyBefore(g, 3 * i)
    {
      for j := 0 to 3
        invariant emptyCells == EmptyBefore(g, 3 * i + j)
      {
        assert g[3 * i + j] == board[i, j] && CellOf(3 * i + j) == (i, j);
        if board[i, j] == ' ' {
          emptyCells := emptyCells + [(i, j)];
        }
      }
    }
  }

  // ---------------------------------------------------------------------------
  // Minimax

  /** The score minimax gives a position: the winner checks come first, then the
      full board, then the best (or worst) child over the empty cells. */
  function MinimaxValue(g: Grid, depth: int, isMaximizing: bool, player: char, opponent: char): int
    requires player != ' ' && opponent != ' '
    decreases |EmptyCells(g)|, 2, 0
  {
    var winner := CheckWinner(g);
    if winner == Some(player) then 10 - depth
    else if winner == Some(opponent) then depth - 10
    else if IsFull(g) then 0
    else
      FullIffNoEmptyCells(g);
      var best := Fold(g, depth, isMaximizing, player, opponent, |EmptyCells(g)|);
      best.n
  }

  /** The score of the child reached by marking the k-th empty cell. */
  function ChildValue(g: Grid, depth: int, isMaximizing: bool, player: char, opponent: char, k: nat): int
    requires player != ' ' && opponent != ' ' && k < |EmptyCells(g)|
    decreases |EmptyCells(g)|, 0, 0
  {
    EmptyCellsSound(g);
    var c := EmptyCells(g)[k];
    var mark := if isMaximizing then player else opponent;
    EmptyCellsShrink(g, c, mark);
    MinimaxValue(Place(g, c, mark), depth + 1, !isMaximizing, player, opponent)
  }

  /** max_eval (or min_eval) after the first k children. */
  function Fold(g: Grid, depth: int, isMaximizing: bool, player: char, opponent: char, k: nat): (r: ExtInt)
    requires player != ' ' && opponent != ' ' && k <= |EmptyCells(g)|
    ensures k > 0 ==> r.Fin?
    ensures k == 0 ==> r == (if isMaximizing then NegInf else PosInf)
    decreases |EmptyCells(g)|, 1, k
  {
    if k == 0 then (if isMaximizing then NegInf else PosInf)
    else
      var prev := Fold(g, depth, isMaximizing, player, opponent, k - 1);
      var v := Fin(ChildValue(g, depth, isMaximizing, player, opponent, k - 1));
      if isMaximizing then Max(prev, v) else Min(prev, v)
  }

  /** The fold picks one of the children it has seen. */
  lemma {:induction false} FoldAttains(g: Grid, depth: int, isMaximizing: bool, player: char, opponent: char, k: nat)
    requires player != ' ' && opponent != ' ' && 0 < k <= |EmptyCells(g)|
    ensures exists a :: 0 <= a < k && Fold(g, depth, isMaximizing, player, opponent, k).n == ChildValue(g, depth, isMaximizing, player, opponent, a)
  {
    var f := Fold(g, depth, isMaximizing, player, opponent, k);
    var v := ChildValue(g, depth, isMaximizing, player, opponent, k - 1);
    if k == 1 {
      assert f.n == v;
    } else {
      FoldAttains(g, depth, isMaximizing, player, opponent, k - 1);
      var prev := Fold(g, depth, isMaximizing, player, opponent, k - 1);
      var a' :| 0 <= a' < k - 1 && prev.n == ChildValue(g, depth, isMaximizing, player, opponent, a');
      assert f == (if isMaximizing then Max(prev, Fin(v)) else Min(prev, Fin(v)));
      if f.n == v {
        assert f.n == ChildValue(g, depth, isMaximizing, player, opponent, k - 1);
      } else {
        assert f.n == ChildValue(g, depth, isMaximizing, player, opponent, a');
      }
    }
  }

  /** The fold bounds every child it has seen: from above for the maximizer,
      from below for the minimizer. */
  lemma {:induction false} FoldBounds(g: Grid, depth: int, isMaximizing: bool, player: char, opponent: char, k: nat)
    requires player != ' ' && opponent != ' ' && 0 < k <= |EmptyCells(g)|
    ensures forall a :: 0 <= a < k ==>
      if isMaximizing then ChildValue(g, depth, isMaximizing, player, opponent, a) <= Fold(g, depth, isMaximizing, player, opponent, k).n
      else Fold(g, depth, isMaximizing, player, opponent, k).n <= ChildValue(g, depth, isMaximizing, player, opponent, a)
  {
    var f := Fold(g, depth, isMaximizing, player, opponent, k);
    var v := ChildValue(g, depth, isMaximizing, player, opponent, k - 1);
    if k == 1 {
      assert f.n == v;
    } else {
      FoldBounds(g, depth, isMaximizing, player, opponent, k - 1);
      var prev := Fold(g, depth, isMaximizing, player, opponent, k - 1);
      assert f == (if isMaximizing then Max(prev, Fin(v)) else Min(prev, Fin(v)));
      forall a | 0 <= a < k
        ensures if isMaximizing then ChildValue(g, depth, isMaximizing, player, opponent, a) <= f.n
          else f.n <= ChildValue(g, depth, isMaximizing, player, opponent, a)
      {
        if a < k - 1 {
          FoldStep(isMaximizing, prev, v, f, ChildValue(g, depth, isMaximizing, player, opponent, a));
        } else {
          FoldStep(isMaximizing, prev, v, f, prev.n);
        }
      }
    }
  }

  /** One step of the fold keeps every earlier bound and adds the new value. */
  lemma FoldStep(isMaximizing: bool, prev: ExtInt, v: int, f: ExtInt, c: int)
    requires prev.Fin? && f == (if isMaximizing then Max(prev, Fin(v)) else Min(prev, Fin(v)))
    requires if isMaximizing then c <= prev.n else prev.n <= c
    ensures f.Fin?
    ensures isMaximizing ==> c <= f.n && v <= f.n
    ensures !isMaximizing ==> f.n <= c && f.n <= v
  {
  }

  /** Depth-scored bounds: when no more than 10 - depth moves remain, the score
      of a position lies between depth - 10 and 10 - depth. */
  lemma {:induction false} MinimaxBounds(g: Grid, depth: int, isMaximizing: bool, player: char, opponent: char)
    requires player != ' ' && opponent != ' '
    requires depth + |EmptyCells(g)| <= 10
    ensures depth - 10 <= MinimaxValue(g, depth, isMaximizing, player, opponent) <= 10 - depth
    decreases |EmptyCells(g)|, 1
  {
    var winner := CheckWinner(g);
    var value := MinimaxValue(g, depth, isMaximizing, player, opponent);
    if winner == Some(player) {
      assert value == 10 - depth;
    } else if winner == Some(opponent) {
      assert value == depth - 10;
    } else if IsFull(g) {
      assert value == 0;
    } else {
      FullIffNoEmptyCells(g);
      var n := |EmptyCells(g)|;
      FoldAttains(g, depth, isMaximizing, player, opponent, n);
      var a :| 0 <= a < n && Fold(g, depth, isMaximizing, player, opponent, n).n == ChildValue(g, depth, isMaximizing, player, opponent, a);
      assert value == ChildValue(g, depth, isMaximizing, player, opponent, a);
      ChildBounds(g, depth, isMaximizing, player, opponent, a);
    }
  }

  /** The bounds one move deeper, for the child reached through the a-th empty cell. */
  lemma {:induction false} ChildBounds(g: Grid, depth: int, isMaximizing: bool, player: char, opponent: char, a: nat)
    requires player != ' ' && opponent != ' '
    requires depth + |EmptyCells(g)| <= 10 && a < |EmptyCells(g)|
    ensures depth + 1 - 10 <= ChildValue(g, depth, isMaximizing, player, opponent, a) <= 10 - (depth + 1)
    decreases |EmptyCells(g)|, 0
  {
    EmptyCellsSound(g);
    var c := EmptyCells(g)[a];
    var mark := if isMaximizing then player else opponent;
    var child := Place(g, c, mark);
    EmptyCellsShrink(g, c, mark);
    assert ChildValue(g, depth, isMaximizing, player, opponent, a) == MinimaxValue(child, depth + 1, !isMaximizing, player, opponent);
    MinimaxBounds(child, depth + 1, !isMaximizing, player, opponent);
  }

  /** minimax: the winner checks, the full board, then a loop over the empty
      cells that places a mark, recurses and undoes. */
  method Minimax(board: array2<char>, depth: int, isMaximizing: bool, player: char, opponent: char) returns (score: int)
    requires IsBoard(board) && player != ' ' && opponent != ' '
    modifies board
    ensures Snapshot(board) == old(Snapshot(board))
    ensures score == MinimaxValue(old(Snapshot(board)), depth, isMaximizing, player, opponent)
    decreases |EmptyCells(Snapshot(board))|, 1
  {
    ghost var g := Snapshot(board);
    var winner := CheckWinner(Snapshot(board));
    if winner == Some(player) {
      return 10 - depth;
    }
    if winner == Some(opponent) {
      return depth - 10;
    }
    if IsFull(Snapshot(board)) {
      return 0;
    }
    FullIffNoEmptyCells(g);
    var emptyCells := GetEmptyCells(board);
    var best: ExtInt := if isMaximizing then NegInf else PosInf;
    for k := 0 to |emptyCells|
      invariant Snapshot(board) == g
      invariant best == Fold(g, depth, isMaximizing, player, opponent, k)
    {
      var evalScore := PlaceAndEvaluate(board, depth, isMaximizing, player, opponent, k);
      if isMaximizing {
        best := Max(best, Fin(evalScore));
      } else {
        best := Min(best, Fin(evalScore));
      }
    }
    score := best.n;
  }

  /** One iteration of the loop of minimax: mark the k-th empty cell (the
      player's mark when maximizing, the opponent's otherwise), score the
      child one level deeper, and blank the cell again. */
  method PlaceAndEvaluate(board: array2<char>, depth: int, isMaximizing: bool, player: char, opponent: char, k: nat)
    returns (evalScore: int)
    requires IsBoard(board) && player != ' ' && opponent != ' '
    requires k < |EmptyCells(Snapshot(board))|
    modifies board
    ensures Snapshot(board) == old(Snapshot(board))
    ensures evalScore == ChildValue(old(Snapshot(board)), depth, isMaximizing, player, opponent, k)
    decreases |EmptyCells(Snapshot(board))|, 0
  {
    ghost var g := Snapshot(board);
    EmptyCellsSound(g);
    var (i, j) := EmptyCells(Snapshot(board))[k];
    var mark := if isMaximizing then player else opponent;
    board[i, j] := mark;
    assert Snapshot(board) == Place(g, (i, j), mark);
    EmptyCellsShrink(g, (i, j), mark);
    evalScore := Minimax(board, depth + 1, !isMaximizing, player, opponent);
    board[i, j] := ' ';
    assert Snapshot(board) == g;
  }

  // ---------------------------------------------------------------------------
  // Best move

  /** The score find_best_move gives the k-th empty cell: the opponent replies. */
  function MoveScore(g: Grid, player: char, opponent: char, k: nat): int
    requires player != ' ' && opponent != ' ' && k < |EmptyCells(g)|
  {
    EmptyCellsSound(g);
    MinimaxValue(Place(g, EmptyCells(g)[k], player), 0, false, player, opponent)
  }

  /** The scores of all the empty cells. */
  function MoveScores(g: Grid, player: char, opponent: char): (scores: seq<int>)
    requires player != ' ' && opponent != ' '
    ensures |scores| == |EmptyCells(g)|
  {
    seq(|EmptyCells(g)|, k requires 0 <= k < |EmptyCells(g)| => MoveScore(g, player, opponent, k))
  }

  /** What find_best_move returns. */
  function BestMove(g: Grid, player: char, opponent: char): Option<Cell>
    requires player != ' ' && opponent != ' '
  {
    FirstBest(EmptyCells(g), MoveScores(g, player, opponent), |EmptyCells(g)|).1
  }

  /** find_best_move returns None exactly when there is no empty cell; otherwise
      an empty cell whose score is the greatest, the first such in row-major
      order. */
  lemma BestMoveIsFirstMaximum(g: Grid, player: char, opponent: char)
    requires player != ' ' && opponent != ' '
    ensures BestMove(g, player, opponent).None? <==> EmptyCells(g) == []
    ensures BestMove(g, player, opponent).Some? ==>
      exists a :: 0 <= a < |EmptyCells(g)| && BestMove(g, player, opponent) == Some(EmptyCells(g)[a])
        && ValidCell(EmptyCells(g)[a]) && At(g, EmptyCells(g)[a]) == ' '
        && (forall b :: 0 <= b < a ==> MoveScores(g, player, opponent)[b] < MoveScores(g, player, opponent)[a])
        && (forall b :: a < b < |EmptyCells(g)| ==> MoveScores(g, player, opponent)[b] <= MoveScores(g, player, opponent)[a])
  {
    EmptyCellsSound(g);
    FirstBestIsFirstMaximum(EmptyCells(g), MoveScores(g, player, opponent), |EmptyCells(g)|);
  }

  /** find_best_move: try every empty cell, keep the first strictly best. */
  method FindBestMove(board: array2<char>, player: char, opponent: char) returns (bestMove: Option<Cell>)
    requires IsBoard(board) && player != ' ' && opponent != ' '
    modifies board
    ensures Snapshot(board) == old(Snapshot(board))
    ensures bestMove == BestMove(old(Snapshot(board)), player, opponent)
  {
    ghost var g := Snapshot(board);
    var bestScore: ExtInt := NegInf;
    bestMove := None;
    var emptyCells := GetEmptyCells(board);
    for k := 0 to |emptyCells|
      invariant Snapshot(board) == g
      invariant (bestScore, bestMove) == FirstBest(emptyCells, MoveScores(g, player, opponent), k)
    {
      var score := PlaceAndScore(board, player, opponent, k);
      if Lt(bestScore, Fin(score)) {
        bestScore := Fin(score);
        bestMove := Some(emptyCells[k]);
      }
    }
  }

  /** One iteration of the loop of find_best_move: mark the k-th empty cell
      with the player's mark, score it with minimax at depth 0 with the
      opponent to move, and blank the cell again. */
  method PlaceAndScore(board: array2<char>, player: char, opponent: char, k: nat) returns (score: int)
    requires IsBoard(board) && player != ' ' && opponent != ' '
    requires k < |EmptyCells(Snapshot(board))|
    modifies board
    ensures Snapshot(board) == old(Snapshot(board))
    ensures score == MoveScores(old(Snapshot(board)), player, opponent)[k]
  {
    ghost var g := Snapshot(board);
    EmptyCellsSound(g);
    var (i, j) := EmptyCells(Snapshot(board))[k];
    board[i, j] := player;
    assert Snapshot(board) == Place(g, (i, j), player);
    score := Minimax(board, 0, false, player, opponent);
    board[i, j] := ' ';
    assert Snapshot(board) == g;
  }
}
