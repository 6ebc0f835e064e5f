/** The alpha-beta search of connect4.py (repeated in connect4_gui.py).

    `AlphaBeta` and `ABLoop` specify, on `Grid` values, what minimax computes:
    a fail-soft alpha-beta search whose loop stops as soon as alpha >= beta.
    `PlainMinimax` and `Loop` are the same search without cutoffs; the
    lemmas at the end prove that the pruned search, started with the full
    window (-inf, +inf), returns the value and the column of the plain one.
    The method `Minimax` runs the search on a board array, giving each child
    a copy of the board, and is proved equal to `AlphaBeta`. */
module Connect4Search {
  import opened Wrappers
  import opened ExtInts
  import opened Connect4Board
  import opened Selection

  /** The value of a board the AI has won. */
  const AI_WIN: int := 100000000000000
  /** The value of a board the player has won; smaller in magnitude than AI_WIN. */
  const PLAYER_WIN: int := -10000000000000

  // ---------------------------------------------------------------------------
  // Termination measure

  /** The EMPTY cells in the first k rows. */
  function EmptyRows(g: Grid, k: int): nat
    requires 0 <= k <= ROWS
  {
    if k == 0 then 0 else EmptyRows(g, k - 1) + Count(g[k - 1], EMPTY)
  }

  /** The number of EMPTY cells on the board. */
  function EmptyCount(g: Grid): nat
  {
    EmptyRows(g, ROWS)
  }

  /** Overwriting one EMPTY element with a piece removes one EMPTY. */
  lemma {:induction false} CountOverwrite(s: seq<int>, j: int, x: int)
    requires 0 <= j < |s| && s[j] == EMPTY && x != EMPTY
    ensures Count(s[j := x], EMPTY) == Count(s, EMPTY) - 1
  {
    var t := s[j := x];
    if j == |s| - 1 {
      assert t[..|t| - 1] == s[..|s| - 1];
    } else {
      assert t[..|t| - 1] == s[..|s| - 1][j := x];
      CountOverwrite(s[..|s| - 1], j, x);
    }
  }

  /** Rows that did not change count the same; the changed row counts one less. */
  lemma {:induction false} EmptyRowsOverwrite(g: Grid, g': Grid, row: int, k: int)
    requires 0 <= row < ROWS && 0 <= k <= ROWS
    requires forall r :: 0 <= r < ROWS && r != row ==> g'[r] == g[r]
    requires Count(g'[row], EMPTY) == Count(g[row], EMPTY) - 1
    ensures EmptyRows(g', k) == EmptyRows(g, k) - (if row < k then 1 else 0)
  {
    if k > 0 {
      EmptyRowsOverwrite(g, g', row, k - 1);
    }
  }

  /** Dropping a piece into a valid column fills exactly one EMPTY cell. */
  lemma DropFillsOneCell(g: Grid, col: int, piece: int)
    requires 0 <= col < COLS && IsValidLocation(g, col) && piece != EMPTY
    ensures EmptyCount(Child(g, col, piece)) == EmptyCount(g) - 1
  {
    var row := NextOpenRow(g, col).value;
    CountOverwrite(g[row], col, piece);
    EmptyRowsOverwrite(g, Child(g, col, piece), row, ROWS);
  }

  /** Every column get_valid_locations lists accepts a piece, and the child
      board has one EMPTY cell less. */
  lemma ValidChild(g: Grid, valid: seq<int>, k: int, piece: int)
    requires valid == GetValidLocations(g) && 0 <= k < |valid| && piece != EMPTY
    ensures 0 <= valid[k] < COLS && IsValidLocation(g, valid[k])
    ensures EmptyCount(Child(g, valid[k], piece)) < EmptyCount(g)
  {
    ValidColumn(g, valid, k);
    DropFillsOneCell(g, valid[k], piece);
  }

  // ---------------------------------------------------------------------------
  // The pruned search

  /** is_terminal_node: a side has won or no column accepts a piece. */
  predicate IsTerminalNode(g: Grid)
  {
    WinningMove(g, PLAYER) || WinningMove(g, AI) || |GetValidLocations(g)| == 0
  }

  /** The value minimax gives a node where it does not search further. */
  function LeafValue(g: Grid): int
  {
    if IsTerminalNode(g) then
      if WinningMove(g, AI) then AI_WIN
      else if WinningMove(g, PLAYER) then PLAYER_WIN
      else 0
    else PositionScore(g, AI)
  }

  /** The piece the side to move drops. */
  function Mover(maximizing: bool): int
  {
    if maximizing then AI else PLAYER
  }

  /** The value the loop starts from: -inf for the maximizer, +inf for the minimizer. */
  function Initial(maximizing: bool): ExtInt
  {
    if maximizing then NegInf else PosInf
  }

  /** new_score > value for the maximizer, new_score < value for the minimizer. */
  predicate Improves(maximizing: bool, score: int, value: ExtInt)
  {
    if maximizing then Lt(value, Fin(score)) else Lt(Fin(score), value)
  }

  /** minimax(board, depth, alpha, beta, maximizingPlayer) as (column, value). */
  function AlphaBeta(g: Grid, depth: int, alpha: ExtInt, beta: ExtInt, maximizing: bool): (r: (Option<int>, int))
    ensures r.0.None? <==> depth == 0 || IsTerminalNode(g)
    ensures r.0.Some? ==> r.0.value in GetValidLocations(g)
    decreases EmptyCount(g), 1, 0
  {
    var valid := GetValidLocations(g);
    if depth == 0 || IsTerminalNode(g) then (None, LeafValue(g))
    else
      var (column, value) := ABLoop(g, depth, maximizing, valid, 0, valid[0], Initial(maximizing), alpha, beta);
      (Some(column), if value.Fin? then value.n else 0)
  }

  /** One comparison of the loop: the column and value after new_score. */
  function Step(maximizing: bool, score: int, col: int, column: int, value: ExtInt): (int, ExtInt)
  {
    if Improves(maximizing, score, value) then (col, Fin(score)) else (column, value)
  }

  /** The loop over the valid columns from the k-th on, with the current best
      column and value and the current window. */
  function ABLoop(g: Grid, depth: int, maximizing: bool, valid: seq<int>, k: int,
                  column: int, value: ExtInt, alpha: ExtInt, beta: ExtInt): (r: (int, ExtInt))
    requires valid == GetValidLocations(g) && 0 <= k <= |valid|
    ensures column in valid ==> r.0 in valid
    ensures (k < |valid| && value == Initial(maximizing)) || value.Fin? ==> r.1.Fin?
    decreases EmptyCount(g), 0, |valid| - k
  {
    if k == |valid| then (column, value)
    else
      ValidChild(g, valid, k, Mover(maximizing));
      var col := valid[k];
      var newScore := AlphaBeta(Child(g, col, Mover(maximizing)), depth - 1, alpha, beta, !maximizing).1;
      var (column', value') := Step(maximizing, newScore, col, column, value);
      var alpha' := if maximizing then Max(alpha, value') else alpha;
      var beta' := if maximizing then beta else Min(beta, value');
      if Le(beta', alpha') then (column', value')
      else ABLoop(g, depth, maximizing, valid, k + 1, column', value', alpha', beta')
  }

  // ---------------------------------------------------------------------------
  // The search without cutoffs

  /** Minimax of the same depth, with the same leaves and the same strict
      first-improvement choice of column, but no alpha and beta. */
  function PlainMinimax(g: Grid, depth: int, maximizing: bool): (r: (Option<int>, int))
    ensures r.0.None? <==> depth == 0 || IsTerminalNode(g)
    decreases EmptyCount(g), 1
  {
    var valid := GetValidLocations(g);
    if depth == 0 || IsTerminalNode(g) then (None, LeafValue(g))
    else
      var (column, value) := Loop(maximizing, valid, ChildValues(g, depth, maximizing), 0, valid[0], Initial(maximizing));
      (Some(column), if value.Fin? then value.n else 0)
  }

  /** The plain values of the children, one per valid column. */
  function ChildValues(g: Grid, depth: int, maximizing: bool): (values: seq<int>)
    ensures |values| == |GetValidLocations(g)|
    decreases EmptyCount(g), 0
  {
    var valid := GetValidLocations(g);
    seq(|valid|, k requires 0 <= k < |valid| =>
      ValidChild(g, valid, k, Mover(maximizing));
      PlainMinimax(Child(g, valid[k], Mover(maximizing)), depth - 1, !maximizing).1)
  }

  /** The loop of minimax without the cutoff, over given child values. */
  function Loop(maximizing: bool, valid: seq<int>, values: seq<int>, k: int, column: int, value: ExtInt): (r: (int, ExtInt))
    requires |values| == |valid| && 0 <= k <= |valid|
    ensures (k < |valid| && value == Initial(maximizing)) || value.Fin? ==> r.1.Fin?
    decreases |valid| - k
  {
    if k == |valid| then (column, value)
    else
      var (column', value') := Step(maximizing, values[k], valid[k], column, value);
      Loop(maximizing, valid, values, k + 1, column', value')
  }

  /** The loop never moves its value backwards: the maximizer ends at least
      where it is, the minimizer at most. */
  lemma {:induction false} LoopMonotone(maximizing: bool, valid: seq<int>, values: seq<int>, k: int,
                                        column: int, value: ExtInt)
    requires |values| == |valid| && 0 <= k <= |valid|
    ensures maximizing ==> Le(value, Loop(maximizing, valid, values, k, column, value).1)
    ensures !maximizing ==> Le(Loop(maximizing, valid, values, k, column, value).1, value)
    decreases |valid| - k
  {
    if k < |valid| {
      var s := Step(maximizing, values[k], valid[k], column, value);
      LoopMonotone(maximizing, valid, values, k + 1, s.0, s.1);
      var r := Loop(maximizing, valid, values, k + 1, s.0, s.1).1;
      if maximizing {
        LeTransitive(value, s.1, r);
      } else {
        LeTransitive(r, s.1, value);
      }
    }
  }

  // ---------------------------------------------------------------------------
  // Values

  /** A won board outranks every heuristic score, which outranks a lost one:
      the ordering the asymmetric sentinels are chosen for. */
  lemma SentinelsDominateHeuristic(won: Grid, open: Grid, lost: Grid)
    requires WinningMove(won, AI)
    requires !IsTerminalNode(open)
    requires WinningMove(lost, PLAYER) && !WinningMove(lost, AI)
    ensures LeafValue(lost) < LeafValue(open) < LeafValue(won)
  {
    PositionScoreBounds(open, AI);
  }

  /** Where minimax stops: no column, and the value is fixed by who has four in
      a row (AI first), then by a full board, then by the heuristic. */
  lemma LeafResult(g: Grid, depth: int, alpha: ExtInt, beta: ExtInt, maximizing: bool)
    requires depth == 0 || IsTerminalNode(g)
    ensures AlphaBeta(g, depth, alpha, beta, maximizing).0.None?
    ensures (exists r, c, d :: RunOf(g, AI, r, c, d)) ==> AlphaBeta(g, depth, alpha, beta, maximizing).1 == AI_WIN
    ensures (forall r, c, d :: !RunOf(g, AI, r, c, d)) && (exists r, c, d :: RunOf(g, PLAYER, r, c, d))
      ==> AlphaBeta(g, depth, alpha, beta, maximizing).1 == PLAYER_WIN
    ensures (forall r, c, d :: !RunOf(g, AI, r, c, d) && !RunOf(g, PLAYER, r, c, d)) && GetValidLocations(g) == []
      ==> AlphaBeta(g, depth, alpha, beta, maximizing).1 == 0
    ensures !IsTerminalNode(g) ==> AlphaBeta(g, depth, alpha, beta, maximizing).1 == PositionScore(g, AI)
  {
    WinningMoveIffRun(g, AI);
    WinningMoveIffRun(g, PLAYER);
  }

  /** A value within the sentinels. */
  predicate InRange(value: ExtInt)
  {
    value.Fin? && PLAYER_WIN <= value.n <= AI_WIN
  }

  /** Every value the plain search returns lies between the two sentinels. */
  lemma {:induction false} PlainMinimaxBounds(g: Grid, depth: int, maximizing: bool)
    ensures PLAYER_WIN <= PlainMinimax(g, depth, maximizing).1 <= AI_WIN
    decreases EmptyCount(g), 1
  {
    var valid := GetValidLocations(g);
    if depth == 0 || IsTerminalNode(g) {
      if !IsTerminalNode(g) {
        PositionScoreBounds(g, AI);
      }
    } else {
      ChildValuesBounds(g, depth, maximizing);
      LoopBounds(maximizing, valid, ChildValues(g, depth, maximizing), 0, valid[0], Initial(maximizing));
    }
  }

  lemma {:induction false} ChildValuesBounds(g: Grid, depth: int, maximizing: bool)
    ensures forall i :: 0 <= i < |ChildValues(g, depth, maximizing)| ==>
      PLAYER_WIN <= ChildValues(g, depth, maximizing)[i] <= AI_WIN
    decreases EmptyCount(g), 0
  {
    var valid := GetValidLocations(g);
    var values := ChildValues(g, depth, maximizing);
    forall i | 0 <= i < |values|
      ensures PLAYER_WIN <= values[i] <= AI_WIN
    {
      ValidChild(g, valid, i, Mover(maximizing));
      PlainMinimaxBounds(Child(g, valid[i], Mover(maximizing)), depth - 1, !maximizing);
    }
  }

  /** A loop over values in range, started at the initial value or in range,
      ends in range. */
  lemma {:induction false} LoopBounds(maximizing: bool, valid: seq<int>, values: seq<int>, k: int,
                                      column: int, value: ExtInt)
    requires |values| == |valid| && 0 <= k <= |valid|
    requires forall i :: 0 <= i < |values| ==> PLAYER_WIN <= values[i] <= AI_WIN
    requires (k < |valid| && value == Initial(maximizing)) || InRange(value)
    ensures InRange(Loop(maximizing, valid, values, k, column, value).1)
    decreases |valid| - k
  {
    if k < |valid| {
      var s := Step(maximizing, values[k], valid[k], column, value);
      LoopBounds(maximizing, valid, values, k + 1, s.0, s.1);
    }
  }

  /** The value of the root search lies between the two sentinels. */
  lemma RootSearchBounds(g: Grid, depth: int, maximizing: bool)
    ensures PLAYER_WIN <= AlphaBeta(g, depth, NegInf, PosInf, maximizing).1 <= AI_WIN
  {
    RootSearchIsPlainMinimax(g, depth, maximizing);
    PlainMinimaxBounds(g, depth, maximizing);
  }

  // ---------------------------------------------------------------------------
  // Correctness of the cutoffs

  /** What a fail-soft search guarantees about its value v against the plain
      value m inside the window (alpha, beta): at or below alpha, v is an upper
      bound of m; at or above beta, a lower bound; strictly inside, v is m. */
  predicate FailSoft(alpha: ExtInt, beta: ExtInt, v: int, m: int)
  {
    (Le(Fin(v), alpha) ==> m <= v)
    && (Le(beta, Fin(v)) ==> v <= m)
    && (Lt(alpha, Fin(v)) && Lt(Fin(v), beta) ==> v == m)
  }

  /** The pruned search against the plain one, node by node. */
  lemma {:induction false} AlphaBetaFailSoft(g: Grid, depth: int, alpha: ExtInt, beta: ExtInt, maximizing: bool)
    requires Lt(alpha, beta)
    ensures FailSoft(alpha, beta, AlphaBeta(g, depth, alpha, beta, maximizing).1, PlainMinimax(g, depth, maximizing).1)
    ensures var v := AlphaBeta(g, depth, alpha, beta, maximizing).1;
      Lt(alpha, Fin(v)) && Lt(Fin(v), beta) ==> AlphaBeta(g, depth, alpha, beta, maximizing).0 == PlainMinimax(g, depth, maximizing).0
    decreases EmptyCount(g), 1, 0
  {
    var valid := GetValidLocations(g);
    if !(depth == 0 || IsTerminalNode(g)) {
      var init := Initial(maximizing);
      var r := ABLoop(g, depth, maximizing, valid, 0, valid[0], init, alpha, beta);
      var p := Loop(maximizing, valid, ChildValues(g, depth, maximizing), 0, valid[0], init);
      assert AlphaBeta(g, depth, alpha, beta, maximizing) == (Some(r.0), if r.1.Fin? then r.1.n else 0);
      assert PlainMinimax(g, depth, maximizing) == (Some(p.0), if p.1.Fin? then p.1.n else 0);
      assert r.1.Fin? && p.1.Fin? && FailSoft(alpha, beta, r.1.n, p.1.n)
          && (Lt(alpha, r.1) && Lt(r.1, beta) ==> r.0 == p.0) by {
        if maximizing {
          MaxLoopStart(alpha, beta, valid[0]);
          MaxLoopFailSoft(g, depth, valid, 0, valid[0], NegInf, alpha, beta, valid[0], NegInf, alpha);
        } else {
          MinLoopStart(alpha, beta, valid[0]);
          MinLoopFailSoft(g, depth, valid, 0, valid[0], PosInf, alpha, beta, valid[0], PosInf, beta);
        }
      }
    }
  }

  /** The k-th child of a node: its pruned value against its plain value. */
  lemma {:induction false} ChildFailSoft(g: Grid, depth: int, valid: seq<int>, k: int,
                                         alpha: ExtInt, beta: ExtInt, maximizing: bool)
    requires valid == GetValidLocations(g) && 0 <= k < |valid| && Lt(alpha, beta)
    ensures 0 <= valid[k] < COLS && IsValidLocation(g, valid[k])
    ensures FailSoft(alpha, beta, AlphaBeta(Child(g, valid[k], Mover(maximizing)), depth - 1, alpha, beta, !maximizing).1,
                     ChildValues(g, depth, maximizing)[k])
    decreases EmptyCount(g), 0, 0
  {
    ValidChild(g, valid, k, Mover(maximizing));
    var child := Child(g, valid[k], Mover(maximizing));
    assert ChildValues(g, depth, maximizing)[k] == PlainMinimax(child, depth - 1, !maximizing).1;
    AlphaBetaFailSoft(child, depth - 1, alpha, beta, !maximizing);
  }

  /** The maximizer loop state before the first column. */
  lemma MaxLoopStart(alpha: ExtInt, beta: ExtInt, column: int)
    requires Lt(alpha, beta)
    ensures MaxLoopState(alpha, beta, column, NegInf, alpha, column, NegInf)
  {
  }

  /** The minimizer loop state before the first column. */
  lemma MinLoopStart(alpha: ExtInt, beta: ExtInt, column: int)
    requires Lt(alpha, beta)
    ensures MinLoopState(alpha, beta, column, PosInf, beta, column, PosInf)
  {
  }

  /** The state both maximizer loops keep: alpha is max(alpha0, value), value
      is below beta, the plain value is at most the pruned one, both are
      finite from the first column on, and once the pruned value is above
      alpha0 both loops agree on value and column. */
  predicate MaxLoopState(alpha0: ExtInt, beta: ExtInt, column: int, value: ExtInt, alpha: ExtInt,
                         pcolumn: int, pvalue: ExtInt)
  {
    alpha == Max(alpha0, value) && Lt(alpha0, beta) && Lt(value, beta) && Le(pvalue, value)
    && (value.Fin? <==> pvalue.Fin?)
    && (Lt(alpha0, value) ==> pvalue == value && pcolumn == column)
  }

  /** One maximizer step, given what the child search guarantees: either
      both loops cut off and reach beta, or the loop state is kept. */
  lemma MaxStep(alpha0: ExtInt, beta: ExtInt, column: int, value: ExtInt, alpha: ExtInt,
                pcolumn: int, pvalue: ExtInt, col: int, v: int, m: int)
    requires MaxLoopState(alpha0, beta, column, value, alpha, pcolumn, pvalue)
    requires value.Fin? || value == NegInf
    requires FailSoft(alpha, beta, v, m)
    ensures var s := Step(true, v, col, column, value);
      var p := Step(true, m, col, pcolumn, pvalue);
      if Le(beta, Max(alpha, s.1)) then s.1 == Fin(v) && p.1 == Fin(m) && Le(beta, Fin(v)) && v <= m
      else MaxLoopState(alpha0, beta, s.0, s.1, Max(alpha, s.1), p.0, p.1)
  {
  }

  /** At a maximizer cutoff the pruned value v is at least beta and at most
      the plain value m, which the rest of the plain loop only raises. */
  lemma MaxCutoff(alpha0: ExtInt, beta: ExtInt, v: int, m: int, pfinal: ExtInt)
    requires Lt(alpha0, beta) && Le(beta, Fin(v)) && v <= m && Le(Fin(m), pfinal) && pfinal.Fin?
    ensures FailSoft(alpha0, beta, v, pfinal.n) && !Lt(Fin(v), beta)
  {
  }

  /** The two maximizer loops, from the k-th column on, keep MaxLoopState and
      end fail-soft against each other. */
  lemma {:induction false} MaxLoopFailSoft(g: Grid, depth: int, valid: seq<int>, k: int,
                                           column: int, value: ExtInt, alpha0: ExtInt, beta: ExtInt,
                                           pcolumn: int, pvalue: ExtInt, alpha: ExtInt)
    requires valid == GetValidLocations(g) && 0 <= k <= |valid|
    requires (k < |valid| && value == NegInf) || value.Fin?
    requires MaxLoopState(alpha0, beta, column, value, alpha, pcolumn, pvalue)
    ensures var r := ABLoop(g, depth, true, valid, k, column, value, alpha, beta);
      var p := Loop(true, valid, ChildValues(g, depth, true), k, pcolumn, pvalue);
      r.1.Fin? && p.1.Fin? && FailSoft(alpha0, beta, r.1.n, p.1.n)
        && (Lt(alpha0, r.1) && Lt(r.1, beta) ==> r.0 == p.0)
    decreases EmptyCount(g), 0, |valid| - k, 1
  {
    if k < |valid| {
      var values := ChildValues(g, depth, true);
      MaxIteration(g, depth, valid, k, column, value, alpha0, beta, pcolumn, pvalue, alpha);
      ValidChild(g, valid, k, Mover(true));
      var v := AlphaBeta(Child(g, valid[k], Mover(true)), depth - 1, alpha, beta, false).1;
      var s := Step(true, v, valid[k], column, value);
      var p := Step(true, values[k], valid[k], pcolumn, pvalue);
      if Le(beta, Max(alpha, s.1)) {
        LoopMonotone(true, valid, values, k + 1, p.0, p.1);
        MaxCutoff(alpha0, beta, v, values[k], Loop(true, valid, values, k + 1, p.0, p.1).1);
      } else {
        MaxLoopFailSoft(g, depth, valid, k + 1, s.0, s.1, alpha0, beta, p.0, p.1, Max(alpha, s.1));
      }
    }
  }

  /** The k-th pass of both maximizer loops: each unfolds once, and the step
      either cuts off both or keeps MaxLoopState. */
  lemma {:induction false} MaxIteration(g: Grid, depth: int, valid: seq<int>, k: int,
                                        column: int, value: ExtInt, alpha0: ExtInt, beta: ExtInt,
                                        pcolumn: int, pvalue: ExtInt, alpha: ExtInt)
    requires valid == GetValidLocations(g) && 0 <= k < |valid|
    requires value == NegInf || value.Fin?
    requires MaxLoopState(alpha0, beta, column, value, alpha, pcolumn, pvalue)
    ensures 0 <= valid[k] < COLS && IsValidLocation(g, valid[k])
    ensures var values := ChildValues(g, depth, true);
      var v := AlphaBeta(Child(g, valid[k], Mover(true)), depth - 1, alpha, beta, false).1;
      var s := Step(true, v, valid[k], column, value);
      var p := Step(true, values[k], valid[k], pcolumn, pvalue);
      && ABLoop(g, depth, true, valid, k, column, value, alpha, beta)
        == (if Le(beta, Max(alpha, s.1)) then s else ABLoop(g, depth, true, valid, k + 1, s.0, s.1, Max(alpha, s.1), beta))
      && Loop(true, valid, values, k, pcolumn, pvalue) == Loop(true, valid, values, k + 1, p.0, p.1)
      && if Le(beta, Max(alpha, s.1)) then s.1 == Fin(v) && p.1 == Fin(values[k]) && Le(beta, Fin(v)) && v <= values[k]
        else MaxLoopState(alpha0, beta, s.0, s.1, Max(alpha, s.1), p.0, p.1)
    decreases EmptyCount(g), 0, |valid| - k, 0
  {
    ChildFailSoft(g, depth, valid, k, alpha, beta, true);
    var v := AlphaBeta(Child(g, valid[k], Mover(true)), depth - 1, alpha, beta, false).1;
    var m := ChildValues(g, depth, true)[k];
    MaxStep(alpha0, beta, column, value, alpha, pcolumn, pvalue, valid[k], v, m);
  }

  /** The mirror of MaxLoopState for the minimizer, with beta = min(beta0, value). */
  predicate MinLoopState(alpha: ExtInt, beta0: ExtInt, column: int, value: ExtInt, beta: ExtInt,
                         pcolumn: int, pvalue: ExtInt)
  {
    beta == Min(beta0, value) && Lt(alpha, beta0) && Lt(alpha, value) && Le(value, pvalue)
    && (value.Fin? <==> pvalue.Fin?)
    && (Lt(value, beta0) ==> pvalue == value && pcolumn == column)
  }

  /** One minimizer step, the mirror of MaxStep. */
  lemma MinStep(alpha: ExtInt, beta0: ExtInt, column: int, value: ExtInt, beta: ExtInt,
                pcolumn: int, pvalue: ExtInt, col: int, v: int, m: int)
    requires MinLoopState(alpha, beta0, column, value, beta, pcolumn, pvalue)
    requires value.Fin? || value == PosInf
    requires FailSoft(alpha, beta, v, m)
    ensures var s := Step(false, v, col, column, value);
      var p := Step(false, m, col, pcolumn, pvalue);
      if Le(Min(beta, s.1), alpha) then s.1 == Fin(v) && p.1 == Fin(m) && Le(Fin(v), alpha) && m <= v
      else MinLoopState(alpha, beta0, s.0, s.1, Min(beta, s.1), p.0, p.1)
  {
  }

  /** At a minimizer cutoff the pruned value v is at most alpha and at least
      the plain value m, which the rest of the plain loop only lowers. */
  lemma MinCutoff(alpha: ExtInt, beta0: ExtInt, v: int, m: int, pfinal: ExtInt)
    requires Lt(alpha, beta0) && Le(Fin(v), alpha) && m <= v && Le(pfinal, Fin(m)) && pfinal.Fin?
    ensures FailSoft(alpha, beta0, v, pfinal.n) && !Lt(alpha, Fin(v))
  {
  }

  /** The two minimizer loops, the mirror of MaxLoopFailSoft. */
  lemma {:induction false} MinLoopFailSoft(g: Grid, depth: int, valid: seq<int>, k: int,
                                           column: int, value: ExtInt, alpha: ExtInt, beta0: ExtInt,
                                           pcolumn: int, pvalue: ExtInt, beta: ExtInt)
    requires valid == GetValidLocations(g) && 0 <= k <= |valid|
    requires (k < |valid| && value == PosInf) || value.Fin?
    requires MinLoopState(alpha, beta0, column, value, beta, pcolumn, pvalue)
    ensures var r := ABLoop(g, depth, false, valid, k, column, value, alpha, beta);
      var p := Loop(false, valid, ChildValues(g, depth, false), k, pcolumn, pvalue);
      r.1.Fin? && p.1.Fin? && FailSoft(alpha, beta0, r.1.n, p.1.n)
        && (Lt(alpha, r.1) && Lt(r.1, beta0) ==> r.0 == p.0)
    decreases EmptyCount(g), 0, |valid| - k, 1
  {
    if k < |valid| {
      var values := ChildValues(g, depth, false);
      MinIteration(g, depth, valid, k, column, value, alpha, beta0, pcolumn, pvalue, beta);
      ValidChild(g, valid, k, Mover(false));
      var v := AlphaBeta(Child(g, valid[k], Mover(false)), depth - 1, alpha, beta, true).1;
      var s := Step(false, v, valid[k], column, value);
      var p := Step(false, values[k], valid[k], pcolumn, pvalue);
      if Le(Min(beta, s.1), alpha) {
        LoopMonotone(false, valid, values, k + 1, p.0, p.1);
        MinCutoff(alpha, beta0, v, values[k], Loop(false, valid, values, k + 1, p.0, p.1).1);
      } else {
        MinLoopFailSoft(g, depth, valid, k + 1, s.0, s.1, alpha, beta0, p.0, p.1, Min(beta, s.1));
      }
    }
  }

  /** The k-th pass of both minimizer loops, the mirror of MaxIteration. */
  lemma {:induction false} MinIteration(g: Grid, depth: int, valid: seq<int>, k: int,
                                        column: int, value: ExtInt, alpha: ExtInt, beta0: ExtInt,
                                        pcolumn: int, pvalue: ExtInt, beta: ExtInt)
    requires valid == GetValidLocations(g) && 0 <= k < |valid|
    requires value == PosInf || value.Fin?
    requires MinLoopState(alpha, beta0, column, value, beta, pcolumn, pvalue)
    ensures 0 <= valid[k] < COLS && IsValidLocation(g, valid[k])
    ensures var values := ChildValues(g, depth, false);
      var v := AlphaBeta(Child(g, valid[k], Mover(false)), depth - 1, alpha, beta, true).1;
      var s := Step(false, v, valid[k], column, value);
      var p := Step(false, values[k], valid[k], pcolumn, pvalue);
      && ABLoop(g, depth, false, valid, k, column, value, alpha, beta)
        == (if Le(Min(beta, s.1), alpha) then s else ABLoop(g, depth, false, valid, k + 1, s.0, s.1, alpha, Min(beta, s.1)))
      && Loop(false, valid, values, k, pcolumn, pvalue) == Loop(false, valid, values, k + 1, p.0, p.1)
      && if Le(Min(beta, s.1), alpha) then s.1 == Fin(v) && p.1 == Fin(values[k]) && Le(Fin(v), alpha) && values[k] <= v
        else MinLoopState(alpha, beta0, s.0, s.1, Min(beta, s.1), p.0, p.1)
    decreases EmptyCount(g), 0, |valid| - k, 0
  {
    ChildFailSoft(g, depth, valid, k, alpha, beta, false);
    var v := AlphaBeta(Child(g, valid[k], Mover(false)), depth - 1, alpha, beta, true).1;
    var m := ChildValues(g, depth, false)[k];
    MinStep(alpha, beta0, column, value, beta, pcolumn, pvalue, valid[k], v, m);
  }

  /** Called at the root with alpha = -inf and beta = +inf, the pruned search
      returns exactly the value and the column of plain minimax. */
  lemma RootSearchIsPlainMinimax(g: Grid, depth: int, maximizing: bool)
    ensures AlphaBeta(g, depth, NegInf, PosInf, maximizing) == PlainMinimax(g, depth, maximizing)
  {
    AlphaBetaFailSoft(g, depth, NegInf, PosInf, maximizing);
    var r := AlphaBeta(g, depth, NegInf, PosInf, maximizing);
    var p := PlainMinimax(g, depth, maximizing);
    assert Lt(NegInf, Fin(r.1)) && Lt(Fin(r.1), PosInf);
    assert r.0 == p.0 && r.1 == p.1;
  }

  // ---------------------------------------------------------------------------
  // Which column the root search returns

  /** A score seen from the side to move: the minimizer's scores negated, so
      that "improves" always means "strictly greater". */
  function Oriented(maximizing: bool, score: int): int
  {
    if maximizing then score else -score
  }

  /** Oriented on the extended integers. */
  function OrientedExt(maximizing: bool, value: ExtInt): ExtInt
  {
    if maximizing then value
    else match value
      case NegInf => PosInf
      case Fin(n) => Fin(-n)
      case PosInf => NegInf
  }

  /** The scores seen from the side to move. */
  function OrientedValues(maximizing: bool, values: seq<int>): (ovalues: seq<int>)
    ensures |ovalues| == |values|
    ensures forall k :: 0 <= k < |values| ==> ovalues[k] == Oriented(maximizing, values[k])
  {
    seq(|values|, k requires 0 <= k < |values| => Oriented(maximizing, values[k]))
  }

  /** From its k-th column on, the loop keeps the first strictly best column
      in the sense of FirstBest on the oriented values. */
  lemma {:induction false} LoopIsFirstBest(maximizing: bool, valid: seq<int>, values: seq<int>, k: int,
                                           column: int, value: ExtInt)
    requires |values| == |valid| && 0 <= k <= |valid|
    requires OrientedExt(maximizing, value) == FirstBest(valid, OrientedValues(maximizing, values), k).0
    requires k > 0 ==> FirstBest(valid, OrientedValues(maximizing, values), k).1 == Some(column)
    ensures var r := Loop(maximizing, valid, values, k, column, value);
      var best := FirstBest(valid, OrientedValues(maximizing, values), |valid|);
      OrientedExt(maximizing, r.1) == best.0 && (|valid| > 0 ==> best.1 == Some(r.0))
    decreases |valid| - k
  {
    if k < |valid| {
      var ovalues := OrientedValues(maximizing, values);
      var s := Step(maximizing, values[k], valid[k], column, value);
      assert Improves(maximizing, values[k], value) <==> Lt(OrientedExt(maximizing, value), Fin(ovalues[k]));
      assert OrientedExt(maximizing, s.1) == FirstBest(valid, ovalues, k + 1).0;
      assert FirstBest(valid, ovalues, k + 1).1 == Some(s.0);
      LoopIsFirstBest(maximizing, valid, values, k + 1, s.0, s.1);
    }
  }

  /** Started from the initial value, the loop ends at the first column of
      best oriented value. */
  lemma LoopFindsFirstBest(maximizing: bool, valid: seq<int>, values: seq<int>)
    requires |values| == |valid| > 0
    ensures var r := Loop(maximizing, valid, values, 0, valid[0], Initial(maximizing));
      exists a :: 0 <= a < |valid| && r == (valid[a], Fin(values[a]))
        && (forall b :: 0 <= b < a ==> Oriented(maximizing, values[b]) < Oriented(maximizing, values[a]))
        && (forall b :: a < b < |valid| ==> Oriented(maximizing, values[b]) <= Oriented(maximizing, values[a]))
  {
    var r := Loop(maximizing, valid, values, 0, valid[0], Initial(maximizing));
    LoopIsFirstBest(maximizing, valid, values, 0, valid[0], Initial(maximizing));
    FirstBestOfOriented(maximizing, valid, values, r.0, r.1);
  }

  /** Reading the first maximum of the oriented values back in the values. */
  lemma FirstBestOfOriented(maximizing: bool, valid: seq<int>, values: seq<int>, column: int, value: ExtInt)
    requires |values| == |valid| > 0 && value.Fin?
    requires var best := FirstBest(valid, OrientedValues(maximizing, values), |valid|);
      best.0 == OrientedExt(maximizing, value) && best.1 == Some(column)
    ensures exists a ::
      && 0 <= a < |valid| && (column, value) == (valid[a], Fin(values[a]))
      && (forall b :: 0 <= b < a ==> Oriented(maximizing, values[b]) < Oriented(maximizing, values[a]))
      && (forall b :: a < b < |valid| ==> Oriented(maximizing, values[b]) <= Oriented(maximizing, values[a]))
  {
    var ovalues := OrientedValues(maximizing, values);
    FirstBestIsFirstMaximum(valid, ovalues, |valid|);
    var a :| 0 <= a < |valid| && FirstBest(valid, ovalues, |valid|) == (Fin(ovalues[a]), Some(valid[a]))
      && (forall b :: 0 <= b < a ==> ovalues[b] < ovalues[a])
      && (forall b :: a < b < |valid| ==> ovalues[b] <= ovalues[a]);
    assert value == Fin(values[a]) by {
      assert OrientedExt(maximizing, value) == Fin(Oriented(maximizing, values[a]));
    }
  }


  /** root is (Some(valid[a]), values[a]) for the first column a whose value is
      best for the side to move: greatest for the maximizer, least for the
      minimizer. */
  predicate FirstBestChoice(maximizing: bool, valid: seq<int>, values: seq<int>, root: (Option<int>, int))
    requires |values| == |valid|
  {
    exists a ::
      && 0 <= a < |valid| && root == (Some(valid[a]), values[a])
      && (forall b :: 0 <= b < a ==> Oriented(maximizing, values[b]) < Oriented(maximizing, values[a]))
      && (forall b :: a < b < |valid| ==> Oriented(maximizing, values[b]) <= Oriented(maximizing, values[a]))
  }

  /** The pruned root search returns, among the valid columns, the first
      whose child value is best for the side to move, together with that
      value. */
  lemma RootColumnIsFirstBest(g: Grid, depth: int, maximizing: bool)
    requires depth != 0 && !IsTerminalNode(g)
    ensures FirstBestChoice(maximizing, GetValidLocations(g), ChildValues(g, depth, maximizing),
                            AlphaBeta(g, depth, NegInf, PosInf, maximizing))
  {
    var valid := GetValidLocations(g);
    var values := ChildValues(g, depth, maximizing);
    RootSearchIsPlainLoop(g, depth, maximizing);
    RootFromLoop(maximizing, valid, values, AlphaBeta(g, depth, NegInf, PosInf, maximizing),
      Loop(maximizing, valid, values, 0, valid[0], Initial(maximizing)));
  }

  /** The root result read off the plain loop's first best column. */
  lemma RootFromLoop(maximizing: bool, valid: seq<int>, values: seq<int>, root: (Option<int>, int), r: (int, ExtInt))
    requires |values| == |valid| > 0
    requires r == Loop(maximizing, valid, values, 0, valid[0], Initial(maximizing))
    requires r.1.Fin? && root == (Some(r.0), r.1.n)
    ensures FirstBestChoice(maximizing, valid, values, root)
  {
    LoopFindsFirstBest(maximizing, valid, values);
  }

  /** An inner node of the root search is the plain loop from the initial value. */
  lemma RootSearchIsPlainLoop(g: Grid, depth: int, maximizing: bool)
    requires depth != 0 && !IsTerminalNode(g)
    ensures var valid := GetValidLocations(g);
      var r := Loop(maximizing, valid, ChildValues(g, depth, maximizing), 0, valid[0], Initial(maximizing));
      r.1.Fin? && AlphaBeta(g, depth, NegInf, PosInf, maximizing) == (Some(r.0), r.1.n)
  {
    RootSearchIsPlainMinimax(g, depth, maximizing);
    PlainMinimaxUnfold(g, depth, maximizing);
  }

  /** An inner node of plain minimax is its loop from the initial value. */
  lemma PlainMinimaxUnfold(g: Grid, depth: int, maximizing: bool)
    requires depth != 0 && !IsTerminalNode(g)
    ensures var valid := GetValidLocations(g);
      var r := Loop(maximizing, valid, ChildValues(g, depth, maximizing), 0, valid[0], Initial(maximizing));
      r.1.Fin? && PlainMinimax(g, depth, maximizing) == (Some(r.0), r.1.n)
  {
  }

  // ---------------------------------------------------------------------------
  // The method

  /** minimax: the leaves first, then the search over the valid columns. The
      caller's board is only read. */
  method Minimax(board: array2<int>, depth: int, alpha: ExtInt, beta: ExtInt, maximizing: bool)
    returns (column: Option<int>, value: int)
    requires IsBoard(board)
    ensures (column, value) == AlphaBeta(Snapshot(board), depth, alpha, beta, maximizing)
    decreases EmptyCount(Snapshot(board)), 2
  {
    var terminal := IsTerminalNode(Snapshot(board));
    if depth == 0 || terminal {
      if terminal {
        if WinningMove(Snapshot(board), AI) {
          return None, AI_WIN;
        } else if WinningMove(Snapshot(board), PLAYER) {
          return None, PLAYER_WIN;
        } else {
          return None, 0;
        }
      } else {
        var score := ScorePosition(board, AI);
        return None, score;
      }
    }
    var col;
    col, value := SearchColumns(board, depth, alpha, beta, maximizing);
    column := Some(col);
  }

  /** The maximizer or minimizer loop of minimax over the valid columns, each
      child searched on a fresh copy of the board, stopping once
      alpha >= beta. */
  method SearchColumns(board: array2<int>, depth: int, alpha: ExtInt, beta: ExtInt, maximizing: bool)
    returns (column: int, value: int)
    requires IsBoard(board) && GetValidLocations(Snapshot(board)) != []
    ensures var valid := GetValidLocations(Snapshot(board));
      (column, Fin(value)) == ABLoop(Snapshot(board), depth, maximizing, valid, 0, valid[0], Initial(maximizing), alpha, beta)
    decreases EmptyCount(Snapshot(board)), 1, 1
  {
    ghost var g := Snapshot(board);
    var validLocations := GetValidLocations(Snapshot(board));
    var a, b := alpha, beta;
    var best: ExtInt := Initial(maximizing);
    column := validLocations[0];
    ghost var start := ABLoop(g, depth, maximizing, validLocations, 0, column, best, a, b);
    var k := 0;
    while k < |validLocations|
      invariant 0 <= k <= |validLocations|
      invariant (k < |validLocations| && best == Initial(maximizing)) || best.Fin?
      invariant ABLoop(g, depth, maximizing, validLocations, k, column, best, a, b) == start
      decreases |validLocations| - k
    {
      var cutoff;
      column, best, a, b, cutoff := SearchStep(board, depth, maximizing, validLocations, k, column, best, a, b);
      if cutoff {
        return column, best.n;
      }
      k := k + 1;
    }
    return column, best.n;
  }

  /** The k-th pass of the minimax loop: search the child, keep the strictly
      better score, narrow the window and report whether alpha >= beta. */
  method SearchStep(board: array2<int>, depth: int, maximizing: bool, validLocations: seq<int>, k: int,
                    column: int, best: ExtInt, a: ExtInt, b: ExtInt)
    returns (column': int, best': ExtInt, a': ExtInt, b': ExtInt, cutoff: bool)
    requires IsBoard(board) && validLocations == GetValidLocations(Snapshot(board)) && 0 <= k < |validLocations|
    requires best == Initial(maximizing) || best.Fin?
    ensures best'.Fin?
    ensures var r := ABLoop(Snapshot(board), depth, maximizing, validLocations, k, column, best, a, b);
      if cutoff then r == (column', best')
      else r == ABLoop(Snapshot(board), depth, maximizing, validLocations, k + 1, column', best', a', b')
    decreases EmptyCount(Snapshot(board)), 1, 0
  {
    ghost var g := Snapshot(board);
    ValidChild(g, validLocations, k, Mover(maximizing));
    var col := validLocations[k];
    var newScore := SearchChild(board, col, depth - 1, a, b, maximizing);
    ghost var s := Step(maximizing, newScore, col, column, best);
    column', best', a', b' := column, best, a, b;
    if Improves(maximizing, newScore, best) {
      best' := Fin(newScore);
      column' := col;
    }
    if maximizing {
      a' := Max(a, best');
    } else {
      b' := Min(b, best');
    }
    cutoff := Le(b', a');
    assert s == (column', best');
    assert ABLoop(g, depth, maximizing, validLocations, k, column, best, a, b)
      == if cutoff then s else ABLoop(g, depth, maximizing, validLocations, k + 1, s.0, s.1, a', b');
  }

  /** One step of the minimax loop: copy the board, drop the mover's piece into
      its open row and search the copy for the other side. */
  method SearchChild(board: array2<int>, col: int, depth: int, alpha: ExtInt, beta: ExtInt, maximizing: bool)
    returns (score: int)
    requires IsBoard(board) && 0 <= col < COLS && IsValidLocation(Snapshot(board), col)
    ensures score == AlphaBeta(Child(Snapshot(board), col, Mover(maximizing)), depth, alpha, beta, !maximizing).1
    decreases EmptyCount(Snapshot(board)), 0
  {
    var row := GetNextOpenRow(board, col);
    var copy := CopyBoard(board);
    DropPiece(copy, row.value, col, Mover(maximizing));
    DropFillsOneCell(Snapshot(board), col, Mover(maximizing));
    var _, value := Minimax(copy, depth, alpha, beta, !maximizing);
    score := value;
  }
}
