/** The Connect-Four board of connect4.py (the same code is repeated in
    connect4_gui.py): an 8x8 grid of EMPTY, PLAYER and AI, row 0 at the top, on
    which pieces fall to the lowest empty cell of their column; the win test;
    the window heuristic; and the greedy one-ply move picker.

    The board is an `array2<int>` that drop_piece writes into; `Snapshot`
    views it as a `Grid` value, on which the specification functions are
    stated. */
module Connect4Board {
  import opened Wrappers
  import opened ExtInts
  import opened Selection

  const ROWS: int := 8
  const COLS: int := 8
  const PLAYER: int := 1
  const AI: int := 2
  const EMPTY: int := 0
  const WINDOW_LENGTH: int := 4

  /** A board as a value: ROWS rows of COLS cells. */
  type Grid = g: seq<seq<int>> | |g| == ROWS && forall r :: 0 <= r < ROWS ==> |g[r]| == COLS
    witness seq(8, _ => seq(8, _ => 0))

  predicate InBounds(r: int, c: int)
  {
    0 <= r < ROWS && 0 <= c < COLS
  }

  predicate IsBoard(board: array2<int>)
  {
    board.Length0 == ROWS && board.Length1 == COLS
  }

  function Snapshot(board: array2<int>): (g: Grid)
    requires IsBoard(board)
    reads board
    ensures forall r, c :: InBounds(r, c) ==> g[r][c] == board[r, c]
  {
    seq(ROWS, r requires 0 <= r < ROWS reads board =>
      seq(COLS, c requires 0 <= c < COLS reads board => board[r, c]))
  }

  /** The grid create_board returns. */
  function EmptyGrid(): (g: Grid)
    ensures forall r, c :: InBounds(r, c) ==> g[r][c] == EMPTY
  {
    seq(ROWS, _ => seq(COLS, _ => EMPTY))
  }

  /** create_board: a ROWS x COLS grid of EMPTY. */
  method CreateBoard() returns (board: array2<int>)
    ensures fresh(board) && IsBoard(board)
    ensures Snapshot(board) == EmptyGrid()
  {
    board := new int[ROWS, COLS]((_, _) => EMPTY);
    assert forall r :: 0 <= r < ROWS ==> Snapshot(board)[r] == EmptyGrid()[r];
  }

  /** The copy `[r.copy() for r in board]`. */
  method CopyBoard(board: array2<int>) returns (copy: array2<int>)
    requires IsBoard(board)
    ensures fresh(copy) && IsBoard(copy)
    ensures Snapshot(copy) == Snapshot(board)
  {
    copy := new int[ROWS, COLS]((r, c) reads board => if InBounds(r, c) then board[r, c] else EMPTY);
    assert forall r :: 0 <= r < ROWS ==> Snapshot(copy)[r] == Snapshot(board)[r];
  }

  /** The grid after writing piece into (row, col). */
  function Drop(g: Grid, row: int, col: int, piece: int): (g': Grid)
    requires InBounds(row, col)
  {
    g[row := g[row][col := piece]]
  }

  /** drop_piece writes board[row][col] and no other cell. */
  lemma DropChangesOneCell(g: Grid, row: int, col: int, piece: int)
    requires InBounds(row, col)
    ensures Drop(g, row, col, piece)[row][col] == piece
    ensures forall r, c :: InBounds(r, c) && (r, c) != (row, col) ==> Drop(g, row, col, piece)[r][c] == g[r][c]
  {
  }

  /** drop_piece. */
  method DropPiece(board: array2<int>, row: int, col: int, piece: int)
    requires IsBoard(board) && InBounds(row, col)
    modifies board
    ensures Snapshot(board) == Drop(old(Snapshot(board)), row, col, piece)
  {
    ghost var g := Snapshot(board);
    board[row, col] := piece;
    assert forall r :: 0 <= r < ROWS ==> Snapshot(board)[r] == Drop(g, row, col, piece)[r];
  }

  /** is_valid_location: the top cell of the column is empty. */
  predicate IsValidLocation(g: Grid, col: int)
    requires 0 <= col < COLS
  {
    g[0][col] == EMPTY
  }

  // ---------------------------------------------------------------------------
  // Gravity

  /** The scan of get_next_open_row from row r upward. */
  function NextOpenRowFrom(g: Grid, col: int, r: int): (row: Option<int>)
    requires 0 <= col < COLS && -1 <= r < ROWS
    ensures row.Some? ==> 0 <= row.value <= r && g[row.value][col] == EMPTY
    ensures row.Some? ==> forall r' :: row.value < r' <= r ==> g[r'][col] != EMPTY
    ensures row.None? <==> forall r' :: 0 <= r' <= r ==> g[r'][col] != EMPTY
    decreases r + 1
  {
    if r < 0 then None
    else if g[r][col] == EMPTY then Some(r)
    else NextOpenRowFrom(g, col, r - 1)
  }

  /** get_next_open_row: the lowest empty cell of the column (the largest row
      index), or None when the column has no empty cell. */
  function NextOpenRow(g: Grid, col: int): (row: Option<int>)
    requires 0 <= col < COLS
    ensures row.Some? ==> 0 <= row.value < ROWS && g[row.value][col] == EMPTY
    ensures row.Some? ==> forall r' :: row.value < r' < ROWS ==> g[r'][col] != EMPTY
    ensures row.None? <==> forall r' :: 0 <= r' < ROWS ==> g[r'][col] != EMPTY
  {
    NextOpenRowFrom(g, col, ROWS - 1)
  }

  /** get_next_open_row: the downward row loop. */
  method GetNextOpenRow(board: array2<int>, col: int) returns (row: Option<int>)
    requires IsBoard(board) && 0 <= col < COLS
    ensures row == NextOpenRow(Snapshot(board), col)
  {
    ghost var g := Snapshot(board);
    var r := ROWS - 1;
    while r >= 0
      invariant -1 <= r < ROWS
      invariant NextOpenRowFrom(g, col, r) == NextOpenRow(g, col)
    {
      if board[r, col] == EMPTY {
        return Some(r);
      }
      r := r - 1;
    }
    return None;
  }

  /** Occupied cells of every column form one block that ends at the bottom row:
      below an occupied cell every cell is occupied. */
  predicate Gravity(g: Grid)
  {
    forall r, r', c :: 0 <= r < r' < ROWS && 0 <= c < COLS && g[r][c] != EMPTY ==> g[r'][c] != EMPTY
  }

  lemma EmptyGridGravity()
    ensures Gravity(EmptyGrid())
  {
  }

  /** Under gravity a column accepts a piece exactly when it has an open row. */
  lemma ValidIffOpenRow(g: Grid, col: int)
    requires Gravity(g) && 0 <= col < COLS
    ensures IsValidLocation(g, col) <==> NextOpenRow(g, col).Some?
  {
    if NextOpenRow(g, col).Some? {
      var r := NextOpenRow(g, col).value;
      assert g[r][col] == EMPTY;
    }
  }

  /** Dropping a piece into the open row of a column keeps gravity. */
  lemma DropKeepsGravity(g: Grid, col: int, piece: int)
    requires Gravity(g) && 0 <= col < COLS && piece != EMPTY
    requires NextOpenRow(g, col).Some?
    ensures Gravity(Drop(g, NextOpenRow(g, col).value, col, piece))
  {
    var row := NextOpenRow(g, col).value;
    var g' := Drop(g, row, col, piece);
    DropChangesOneCell(g, row, col, piece);
    forall r, r', c | 0 <= r < r' < ROWS && 0 <= c < COLS && g'[r][c] != EMPTY
      ensures g'[r'][c] != EMPTY
    {
      if c == col && r == row {
        assert r' > row;
      }
    }
  }

  // ---------------------------------------------------------------------------
  // Valid locations

  /** The columns below k whose top cell is empty, in ascending order. */
  function ValidBefore(g: Grid, k: int): seq<int>
    requires 0 <= k <= COLS
  {
    if k == 0 then []
    else ValidBefore(g, k - 1) + (if IsValidLocation(g, k - 1) then [k - 1] else [])
  }

  /** ValidBefore lists, in ascending order, exactly the valid columns below k. */
  lemma {:induction false} ValidBeforeExact(g: Grid, k: int)
    requires 0 <= k <= COLS
    ensures var cols := ValidBefore(g, k);
      && (forall a :: 0 <= a < |cols| ==> 0 <= cols[a] < k && IsValidLocation(g, cols[a]))
      && (forall a, b :: 0 <= a < b < |cols| ==> cols[a] < cols[b])
      && (forall c :: 0 <= c < k ==> (c in cols <==> IsValidLocation(g, c)))
  {
    if k > 0 {
      ValidBeforeExact(g, k - 1);
    }
  }

  /** get_valid_locations: the columns whose top cell is empty. */
  function GetValidLocations(g: Grid): seq<int>
  {
    ValidBefore(g, COLS)
  }

  /** get_valid_locations lists, in ascending order, exactly the columns whose
      top cell is empty. */
  lemma ValidLocationsExact(g: Grid)
    ensures var cols := GetValidLocations(g);
      && (forall a :: 0 <= a < |cols| ==> 0 <= cols[a] < COLS && IsValidLocation(g, cols[a]))
      && (forall a, b :: 0 <= a < b < |cols| ==> cols[a] < cols[b])
      && (forall c :: 0 <= c < COLS ==> (c in cols <==> IsValidLocation(g, c)))
  {
    ValidBeforeExact(g, COLS);
  }

  /** Every column get_valid_locations lists is on the board and accepts a piece. */
  lemma ValidColumn(g: Grid, valid: seq<int>, k: int)
    requires valid == GetValidLocations(g) && 0 <= k < |valid|
    ensures 0 <= valid[k] < COLS && IsValidLocation(g, valid[k])
  {
    ValidLocationsExact(g);
  }

  // ---------------------------------------------------------------------------
  // Four in a row

  /** The four directions winning_move scans. */
  datatype Direction = Horizontal | Vertical | DownRight | UpRight

  /** The i-th cell of the run of four starting at (r, c) in direction d. */
  function RunCell(r: int, c: int, d: Direction, i: int): (int, int)
  {
    match d
    case Horizontal => (r, c + i)
    case Vertical => (r + i, c)
    case DownRight => (r + i, c + i)
    case UpRight => (r - i, c + i)
  }

  /** All four cells of the run lie on the board. */
  predicate RunInBounds(r: int, c: int, d: Direction)
  {
    InBounds(RunCell(r, c, d, 0).0, RunCell(r, c, d, 0).1)
    && InBounds(RunCell(r, c, d, 3).0, RunCell(r, c, d, 3).1)
  }

  /** Four cells of piece in a row. */
  predicate RunOf(g: Grid, piece: int, r: int, c: int, d: Direction)
  {
    RunInBounds(r, c, d) &&
    forall i :: 0 <= i < 4 ==> g[RunCell(r, c, d, i).0][RunCell(r, c, d, i).1] == piece
  }

  /** How many starts winning_move tries in direction d. */
  function StartCount(d: Direction): int
  {
    if d == Horizontal || d == Vertical then 40 else 25
  }

  /** The k-th start winning_move tries in direction d, in its loop order:
      rows then columns, except the vertical scan, which takes columns first. */
  function Start(d: Direction, k: int): (int, int)
  {
    match d
    case Horizontal => (k / 5, k % 5)
    case Vertical => (k % 5, k / 5)
    case DownRight => (k / 5, k % 5)
    case UpRight => (3 + k / 5, k % 5)
  }

  /** The inverse of Start on the starts of in-bounds runs. */
  function StartIndex(d: Direction, r: int, c: int): int
  {
    match d
    case Horizontal => 5 * r + c
    case Vertical => 5 * c + r
    case DownRight => 5 * r + c
    case UpRight => 5 * (r - 3) + c
  }

  /** The loop ranges of winning_move enumerate exactly the in-bounds runs. */
  lemma StartsAreInBoundsRuns(d: Direction)
    ensures forall k :: 0 <= k < StartCount(d) ==> RunInBounds(Start(d, k).0, Start(d, k).1, d)
    ensures forall r, c :: RunInBounds(r, c, d) ==>
      0 <= StartIndex(d, r, c) < StartCount(d) && Start(d, StartIndex(d, r, c)) == (r, c)
  {
    forall k | 0 <= k < StartCount(d)
      ensures RunInBounds(Start(d, k).0, Start(d, k).1, d)
    {
      Split5(k);
    }
    forall r, c | RunInBounds(r, c, d)
      ensures 0 <= StartIndex(d, r, c) < StartCount(d) && Start(d, StartIndex(d, r, c)) == (r, c)
    {
      match d
      case Horizontal => DivMod5(r, c);
      case Vertical => DivMod5(c, r);
      case DownRight => DivMod5(r, c);
      case UpRight => DivMod5(r - 3, c);
    }
  }

  lemma DivMod5(q: int, m: int)
    requires 0 <= m < 5
    ensures (5 * q + m) / 5 == q && (5 * q + m) % 5 == m
  {
  }

  lemma Split5(k: int)
    requires 0 <= k
    ensures k == 5 * (k / 5) + k % 5 && 0 <= k % 5 < 5
  {
  }

  /** The scan of one direction of winning_move from its k-th start on. */
  function ScanFrom(g: Grid, piece: int, d: Direction, k: int): bool
    requires 0 <= k <= StartCount(d)
    decreases StartCount(d) - k
  {
    StartsAreInBoundsRuns(d);
    k < StartCount(d) && (RunOf(g, piece, Start(d, k).0, Start(d, k).1, d) || ScanFrom(g, piece, d, k + 1))
  }

  lemma {:induction false} ScanFromFindsRun(g: Grid, piece: int, d: Direction, k: int)
    requires 0 <= k <= StartCount(d)
    ensures ScanFrom(g, piece, d, k) <==> exists j :: k <= j < StartCount(d) && RunOf(g, piece, Start(d, j).0, Start(d, j).1, d)
    decreases StartCount(d) - k
  {
    if k < StartCount(d) {
      ScanFromFindsRun(g, piece, d, k + 1);
      var start := Start(d, k);
      var here := RunOf(g, piece, start.0, start.1, d);
      assert ScanFrom(g, piece, d, k) == (here || ScanFrom(g, piece, d, k + 1));
      if !here {
        if exists j :: k <= j < StartCount(d) && RunOf(g, piece, Start(d, j).0, Start(d, j).1, d) {
          var j :| k <= j < StartCount(d) && RunOf(g, piece, Start(d, j).0, Start(d, j).1, d);
          assert j != k;
        }
      }
    }
  }

  /** winning_move. */
  function WinningMove(g: Grid, piece: int): bool
  {
    ScanFrom(g, piece, Horizontal, 0) || ScanFrom(g, piece, Vertical, 0)
    || ScanFrom(g, piece, DownRight, 0) || ScanFrom(g, piece, UpRight, 0)
  }

  /** winning_move holds exactly when some in-bounds run of four cells,
      horizontal, vertical, down-right or up-right, holds only piece. */
  lemma WinningMoveIffRun(g: Grid, piece: int)
    ensures WinningMove(g, piece) <==> exists r, c, d :: RunOf(g, piece, r, c, d)
  {
    forall d: Direction
      ensures ScanFrom(g, piece, d, 0) <==> exists r, c :: RunOf(g, piece, r, c, d)
    {
      ScanFromFindsRun(g, piece, d, 0);
      StartsAreInBoundsRuns(d);
      if exists r, c :: RunOf(g, piece, r, c, d) {
        var r, c :| RunOf(g, piece, r, c, d);
        var j := StartIndex(d, r, c);
        assert RunOf(g, piece, Start(d, j).0, Start(d, j).1, d);
      }
    }
    if exists r, c, d :: RunOf(g, piece, r, c, d) {
      var r, c, d :| RunOf(g, piece, r, c, d);
      assert ScanFrom(g, piece, d, 0);
      assert d == Horizontal || d == Vertical || d == DownRight || d == UpRight;
    }
  }

  // ---------------------------------------------------------------------------
  // Heuristic

  /** list.count. */
  function Count(s: seq<int>, x: int): (n: nat)
    ensures n <= |s|
  {
    if s == [] then 0 else Count(s[..|s| - 1], x) + (if s[|s| - 1] == x then 1 else 0)
  }

  /** Three different values cannot together occur more often than there are elements. */
  lemma {:induction false} CountDistinct(s: seq<int>, x: int, y: int, z: int)
    requires x != y && y != z && x != z
    ensures Count(s, x) + Count(s, y) + Count(s, z) <= |s|
  {
    if s != [] {
      CountDistinct(s[..|s| - 1], x, y, z);
    }
  }

  /** The other side's piece. */
  function Opponent(piece: int): int
  {
    if piece == AI then PLAYER else AI
  }

  /** evaluate_window: +100 for four own pieces, else +5 for three own and one
      empty, else +2 for two own and two empty; then -4 when the opponent has
      three pieces and one empty cell. */
  function EvaluateWindow(window: seq<int>, piece: int): (score: int)
    ensures -4 <= score <= 100
  {
    var oppPiece := Opponent(piece);
    var countPiece := Count(window, piece);
    var countEmpty := Count(window, EMPTY);
    var countOpp := Count(window, oppPiece);
    var own := if countPiece == 4 then 100
               else if countPiece == 3 && countEmpty == 1 then 5
               else if countPiece == 2 && countEmpty == 2 then 2
               else 0;
    own + (if countOpp == 3 && countEmpty == 1 then -4 else 0)
  }

  /** On a window of four cells at most one of the two parts applies, so the
      score is one of 100, 5, 2, 0 and -4; it is 100 exactly for four own
      pieces and -4 exactly for three opponent pieces and one empty cell. */
  lemma EvaluateWindowCases(window: seq<int>, piece: int)
    requires |window| == WINDOW_LENGTH
    ensures EvaluateWindow(window, piece) in {100, 5, 2, 0, -4}
    ensures EvaluateWindow(window, piece) == 100 <==> Count(window, piece) == 4
    ensures EvaluateWindow(window, piece) == -4 <==>
      Count(window, Opponent(piece)) == 3 && Count(window, EMPTY) == 1
  {
    if piece != EMPTY {
      CountDistinct(window, piece, EMPTY, Opponent(piece));
    } else {
      CountDistinct(window, EMPTY, Opponent(piece), 3);
    }
  }

  /** The four groups of windows score_position adds up. */
  datatype Section = Rows | Columns | Diagonals | AntiDiagonals

  /** The range of the outer loop of a section: every row, every column, or
      the ROWS - 3 top rows for the diagonals. */
  function OuterCount(s: Section): int
  {
    if s == Rows || s == Columns then 8 else 5
  }

  /** The inner loops all run over range(COLS - 3), that is range(ROWS - 3). */
  const INNER: int := 5

  /** `[board[r][col] for r in range(ROWS)]`. */
  function ColumnArray(g: Grid, col: int): (column: seq<int>)
    requires 0 <= col < COLS
    ensures |column| == ROWS && forall r :: 0 <= r < ROWS ==> column[r] == g[r][col]
  {
    seq(ROWS, r requires 0 <= r < ROWS => g[r][col])
  }

  /** (r, c) is where score_position starts a window of the section: a row
      window on any row, a column window on any column, a diagonal one in the
      top-left 5x5 block. */
  predicate WindowStart(s: Section, r: int, c: int)
  {
    match s
    case Rows => 0 <= r < ROWS && 0 <= c < COLS - 3
    case Columns => 0 <= r < ROWS - 3 && 0 <= c < COLS
    case _ => 0 <= r < ROWS - 3 && 0 <= c < COLS - 3
  }

  /** The window of four cells score_position reads from (r, c). */
  function WindowAt(g: Grid, s: Section, r: int, c: int): (window: seq<int>)
    requires WindowStart(s, r, c)
    ensures |window| == WINDOW_LENGTH
  {
    match s
    case Rows => g[r][c..c + WINDOW_LENGTH]
    case Columns => ColumnArray(g, c)[r..r + WINDOW_LENGTH]
    case Diagonals => seq(WINDOW_LENGTH, i requires 0 <= i < WINDOW_LENGTH => g[r + i][c + i])
    case AntiDiagonals => seq(WINDOW_LENGTH, i requires 0 <= i < WINDOW_LENGTH => g[r + 3 - i][c + i])
  }

  /** The window at step j of the inner loop in step i of the outer loop: the
      outer loop runs over rows, except for the column windows. */
  function LoopWindow(g: Grid, s: Section, i: int, j: int): (window: seq<int>)
    requires 0 <= i < OuterCount(s) && 0 <= j < INNER
    ensures |window| == WINDOW_LENGTH
  {
    if s == Columns then WindowAt(g, s, j, i) else WindowAt(g, s, i, j)
  }

  /** The window scores of the first j inner steps of outer step i. */
  function LineScore(g: Grid, piece: int, s: Section, i: int, j: int): (total: int)
    requires 0 <= i < OuterCount(s) && 0 <= j <= INNER
    ensures -4 * j <= total <= 100 * j
  {
    if j == 0 then 0 else LineScore(g, piece, s, i, j - 1) + EvaluateWindow(LoopWindow(g, s, i, j - 1), piece)
  }

  /** The window scores of the first i outer steps of a section; each step
      adds INNER = 5 windows of -4 to 100. */
  function SectionScore(g: Grid, piece: int, s: Section, i: int): (total: int)
    requires 0 <= i <= OuterCount(s)
    ensures -20 * i <= total <= 500 * i
  {
    if i == 0 then 0 else SectionScore(g, piece, s, i - 1) + LineScore(g, piece, s, i - 1, INNER)
  }

  /** The anti-diagonal windows of score_position, read as board[r+3-i][c+i]
      for r in 0..ROWS-4, are the up-right runs winning_move checks as
      board[r-i][c+i] for r in 3..ROWS-1, taken in the same order. */
  lemma AntiDiagonalWindowsAreUpRightRuns(g: Grid, piece: int, r: int, c: int)
    requires WindowStart(AntiDiagonals, r, c)
    ensures Start(UpRight, 5 * r + c) == (r + 3, c)
    ensures forall i :: 0 <= i < WINDOW_LENGTH ==>
      WindowAt(g, AntiDiagonals, r, c)[i] == g[RunCell(r + 3, c, UpRight, i).0][RunCell(r + 3, c, UpRight, i).1]
    ensures (forall i :: 0 <= i < WINDOW_LENGTH ==> WindowAt(g, AntiDiagonals, r, c)[i] == piece)
      <==> RunOf(g, piece, r + 3, c, UpRight)
  {
    DivMod5(r, c);
    forall i | 0 <= i < WINDOW_LENGTH
      ensures WindowAt(g, AntiDiagonals, r, c)[i] == g[RunCell(r + 3, c, UpRight, i).0][RunCell(r + 3, c, UpRight, i).1]
    {
    }
    assert RunInBounds(r + 3, c, UpRight);
    var bottom := r + 3;
    if forall i :: 0 <= i < WINDOW_LENGTH ==> WindowAt(g, AntiDiagonals, r, c)[i] == piece {
      forall i | 0 <= i < 4
        ensures g[RunCell(bottom, c, UpRight, i).0][RunCell(bottom, c, UpRight, i).1] == piece
      {
        assert WindowAt(g, AntiDiagonals, r, c)[i] == piece;
      }
    }
    if RunOf(g, piece, r + 3, c, UpRight) {
      forall i | 0 <= i < WINDOW_LENGTH
        ensures WindowAt(g, AntiDiagonals, r, c)[i] == piece
      {
        assert g[RunCell(r + 3, c, UpRight, i).0][RunCell(r + 3, c, UpRight, i).1] == piece;
      }
    }
  }

  /** Three points per own piece in the centre column COLS // 2. */
  function CenterScore(g: Grid, piece: int): (score: int)
    ensures 0 <= score <= 3 * ROWS
  {
    Count(ColumnArray(g, COLS / 2), piece) * 3
  }

  /** What score_position computes. */
  function PositionScore(g: Grid, piece: int): int
  {
    CenterScore(g, piece) + SectionScore(g, piece, Rows, 8) + SectionScore(g, piece, Columns, 8)
    + SectionScore(g, piece, Diagonals, 5) + SectionScore(g, piece, AntiDiagonals, 5)
  }

  /** The 130 windows score at least -4 and at most 100 each, and the centre
      column adds between 0 and 24. */
  lemma PositionScoreBounds(g: Grid, piece: int)
    ensures -520 <= PositionScore(g, piece) <= 13024
  {
  }

  /** score_position: the centre column, then the accumulator loops over the
      row, column, diagonal and anti-diagonal windows. */
  method ScorePosition(board: array2<int>, piece: int) returns (score: int)
    requires IsBoard(board)
    ensures score == PositionScore(Snapshot(board), piece)
  {
    ghost var g := Snapshot(board);
    score := 0;
    var centerArray := seq(ROWS, r requires 0 <= r < ROWS reads board => board[r, COLS / 2]);
    assert centerArray == ColumnArray(g, COLS / 2);
    var centerCount := Count(centerArray, piece);
    score := score + centerCount * 3;
    score := AddRowWindows(board, piece, score);
    score := AddColumnWindows(board, piece, score);
    score := AddDiagonalWindows(board, piece, score);
    score := AddAntiDiagonalWindows(board, piece, score);
  }

  /** The horizontal loop of score_position. */
  method AddRowWindows(board: array2<int>, piece: int, score0: int) returns (score: int)
    requires IsBoard(board)
    ensures score == score0 + SectionScore(Snapshot(board), piece, Rows, 8)
  {
    ghost var g := Snapshot(board);
    score := score0;
    for r := 0 to ROWS
      invariant score == score0 + SectionScore(g, piece, Rows, r)
    {
      var rowArray := seq(COLS, c requires 0 <= c < COLS reads board => board[r, c]);
      assert rowArray == g[r];
      for c := 0 to COLS - 3
        invariant score == score0 + SectionScore(g, piece, Rows, r) + LineScore(g, piece, Rows, r, c)
      {
        var window := rowArray[c..c + WINDOW_LENGTH];
        assert window == WindowAt(g, Rows, r, c);
        score := score + EvaluateWindow(window, piece);
      }
    }
  }

  /** The vertical loop of score_position. */
  method AddColumnWindows(board: array2<int>, piece: int, score0: int) returns (score: int)
    requires IsBoard(board)
    ensures score == score0 + SectionScore(Snapshot(board), piece, Columns, 8)
  {
    ghost var g := Snapshot(board);
    score := score0;
    for c := 0 to COLS
      invariant score == score0 + SectionScore(g, piece, Columns, c)
    {
      var colArray := seq(ROWS, r requires 0 <= r < ROWS reads board => board[r, c]);
      assert colArray == ColumnArray(g, c);
      for r := 0 to ROWS - 3
        invariant score == score0 + SectionScore(g, piece, Columns, c) + LineScore(g, piece, Columns, c, r)
      {
        var window := colArray[r..r + WINDOW_LENGTH];
        assert window == WindowAt(g, Columns, r, c);
        score := score + EvaluateWindow(window, piece);
      }
    }
  }

  /** The positive-diagonal loop of score_position. */
  method AddDiagonalWindows(board: array2<int>, piece: int, score0: int) returns (score: int)
    requires IsBoard(board)
    ensures score == score0 + SectionScore(Snapshot(board), piece, Diagonals, 5)
  {
    ghost var g := Snapshot(board);
    score := score0;
    for r := 0 to ROWS - 3
      invariant score == score0 + SectionScore(g, piece, Diagonals, r)
    {
      for c := 0 to COLS - 3
        invariant score == score0 + SectionScore(g, piece, Diagonals, r) + LineScore(g, piece, Diagonals, r, c)
      {
        var window := DiagonalWindow(board, r, c);
        score := score + EvaluateWindow(window, piece);
      }
    }
  }

  /** The negative-diagonal loop of score_position. */
  method AddAntiDiagonalWindows(board: array2<int>, piece: int, score0: int) returns (score: int)
    requires IsBoard(board)
    ensures score == score0 + SectionScore(Snapshot(board), piece, AntiDiagonals, 5)
  {
    ghost var g := Snapshot(board);
    score := score0;
    for r := 0 to ROWS - 3
      invariant score == score0 + SectionScore(g, piece, AntiDiagonals, r)
    {
      for c := 0 to COLS - 3
        invariant score == score0 + SectionScore(g, piece, AntiDiagonals, r) + LineScore(g, piece, AntiDiagonals, r, c)
      {
        var window := AntiDiagonalWindow(board, r, c);
        score := score + EvaluateWindow(window, piece);
      }
    }
  }

  /** The window [board[r+i][c+i] for i in range(WINDOW_LENGTH)]. */
  method DiagonalWindow(board: array2<int>, r: int, c: int) returns (window: seq<int>)
    requires IsBoard(board) && WindowStart(Diagonals, r, c)
    ensures window == WindowAt(Snapshot(board), Diagonals, r, c)
  {
    window := seq(WINDOW_LENGTH, i requires 0 <= i < WINDOW_LENGTH reads board => board[r + i, c + i]);
    assert forall i :: 0 <= i < WINDOW_LENGTH ==> window[i] == WindowAt(Snapshot(board), Diagonals, r, c)[i];
  }

  /** The window [board[r+3-i][c+i] for i in range(WINDOW_LENGTH)]. */
  method AntiDiagonalWindow(board: array2<int>, r: int, c: int) returns (window: seq<int>)
    requires IsBoard(board) && WindowStart(AntiDiagonals, r, c)
    ensures window == WindowAt(Snapshot(board), AntiDiagonals, r, c)
  {
    window := seq(WINDOW_LENGTH, i requires 0 <= i < WINDOW_LENGTH reads board => board[r + 3 - i, c + i]);
    assert forall i :: 0 <= i < WINDOW_LENGTH ==> window[i] == WindowAt(Snapshot(board), AntiDiagonals, r, c)[i];
  }

  // ---------------------------------------------------------------------------
  // Greedy move

  /** The grid after dropping piece into a valid column. */
  function Child(g: Grid, col: int, piece: int): Grid
    requires 0 <= col < COLS && IsValidLocation(g, col)
  {
    Drop(g, NextOpenRow(g, col).value, col, piece)
  }

  /** The scores pick_best_move gives the valid columns. */
  function GreedyScores(g: Grid, piece: int): (scores: seq<int>)
    ensures |scores| == |GetValidLocations(g)|
  {
    var valid := GetValidLocations(g);
    seq(|valid|, k requires 0 <= k < |valid| =>
      ValidColumn(g, valid, k);
      PositionScore(Child(g, valid[k], piece), piece))
  }

  /** What pick_best_move returns. */
  function BestColumn(g: Grid, piece: int): int
    requires GetValidLocations(g) != []
  {
    var valid := GetValidLocations(g);
    FirstBestIsFirstMaximum(valid, GreedyScores(g, piece), |valid|);
    FirstBest(valid, GreedyScores(g, piece), |valid|).1.value
  }

  /** pick_best_move returns a valid column whose one-ply score is the greatest,
      the first such in ascending column order. */
  lemma BestColumnIsFirstMaximum(g: Grid, piece: int)
    requires GetValidLocations(g) != []
    ensures var valid := GetValidLocations(g);
      exists a :: 0 <= a < |valid| && BestColumn(g, piece) == valid[a]
        && 0 <= valid[a] < COLS && IsValidLocation(g, valid[a])
        && (forall b :: 0 <= b < a ==> GreedyScores(g, piece)[b] < GreedyScores(g, piece)[a])
        && (forall b :: a < b < |valid| ==> GreedyScores(g, piece)[b] <= GreedyScores(g, piece)[a])
  {
    var valid := GetValidLocations(g);
    ValidLocationsExact(g);
    FirstBestIsFirstMaximum(valid, GreedyScores(g, piece), |valid|);
  }

  /** pick_best_move: score every valid column on a copy of the board after
      dropping piece there, and keep the first strictly best.  The caller's
      board is only read. */
  method PickBestMove(board: array2<int>, piece: int) returns (bestCol: int)
    requires IsBoard(board) && GetValidLocations(Snapshot(board)) != []
    ensures bestCol == BestColumn(Snapshot(board), piece)
  {
    ghost var g := Snapshot(board);
    var validLocations := GetValidLocations(Snapshot(board));
    ghost var scores := GreedyScores(g, piece);
    var bestScore: ExtInt := NegInf;
    bestCol := validLocations[0];
    for k := 0 to |validLocations|
      invariant Snapshot(board) == g
      invariant bestScore == FirstBest(validLocations, scores, k).0
      invariant k > 0 ==> FirstBest(validLocations, scores, k).1 == Some(bestCol)
    {
      ValidColumn(g, validLocations, k);
      var col := validLocations[k];
      var score := ScoreDrop(board, col, piece);
      assert score == scores[k];
      if Lt(bestScore, Fin(score)) {
        bestScore := Fin(score);
        bestCol := col;
      }
    }
    FirstBestIsFirstMaximum(validLocations, scores, |validLocations|);
  }

  /** The body of the pick_best_move loop: drop piece into col on a copy of
      the board and score the copy. */
  method ScoreDrop(board: array2<int>, col: int, piece: int) returns (score: int)
    requires IsBoard(board) && 0 <= col < COLS && IsValidLocation(Snapshot(board), col)
    ensures score == PositionScore(Child(Snapshot(board), col, piece), piece)
  {
    var row := GetNextOpenRow(board, col);
    var tempBoard := CopyBoard(board);
    DropPiece(tempBoard, row.value, col, piece);
    score := ScorePosition(tempBoard, piece);
  }
}
