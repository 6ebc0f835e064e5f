# discrete: game searches and a toy RSA codec, modelled in Dafny

This project models the three algorithmic cores of the `discrete` repository
and proves properties of them.

- **Tic-tac-toe solver** (`X_O_game.py`), in `tictactoe.dfy`.
  - The 3×3 board is an `array2<char>` that `minimax` and `find_best_move`
    change in place: they place a mark, recurse, then reset the cell to `' '`.
  - These methods are proved to leave the board as they found it.
  - Their results are proved equal to the functions
    `MinimaxValue` and `BestMove` on a flat row-major snapshot of the board.
  - `check_winner`, `is_board_full` and `get_empty_cells` are characterised
    exactly. The score bounds `[depth - 10, 10 - depth]` are proved.
- **Connect-Four board and alpha-beta search** (`connect4.py`), in
  `connect4_board.dfy` and `connect4_search.dfy`.
  - `connect4_gui.py` lines 45-179 repeat the same functions line for line,
    so one model serves both files.
  - The 8×8 board is an `array2<int>`. `drop_piece` writes one cell.
  - `minimax` and `pick_best_move` give each child a fresh copy of the board.
  - `winning_move` is proved to hold exactly when a run of four exists.
  - `evaluate_window` and `score_position` are bounded.
  - The pruned search, `AlphaBeta`, is the fail-soft alpha-beta of
    `minimax`. It is proved, node by node, to be fail-soft against plain
    minimax without cutoffs.
  - At the root window (-inf, +inf), the pruned search therefore returns the
    same value and the same column as plain minimax. That column is the first
    valid column whose child value is best for the side to move.
- **Toy RSA codec** (`rsa_encryption.py`, and its JavaScript halves
  `server1.js` and `server2.js`), in `number_theory.dfy` and `rsa.dfy`.
  - `ModPow` is square-and-multiply with its loop invariant.
  - Each letter pair is packed as `num1 * 100 + num2`.
  - Blocks are encrypted with `m^17 mod 3233` and decrypted with
    `c^2753 mod 3233`. These are RSAEP and RSADP of RFC 8017, sections 5.1.1
    and 5.1.2, with no padding.
  - The block round trip is proved for every `m < 3233`. The proof goes
    through Fermat's little theorem for 61 and 53, via the binomial theorem,
    and the Chinese remainder step.
  - Message round trip, Python program: decrypting the encryption gives the
    message with letters upper-cased and every other character turned into a
    space, then stripped.
  - Message round trip across the servers: server1's encryption followed by
    server2's decryption gives the same text in lower case.

The `±inf` initial values of the searches (`float('inf')`, `math.inf`) are
the `ExtInt` type of `ext_int.dfy`. The "keep the first strictly greater
score" loop shared by `find_best_move` and `pick_best_move` is
`Selection.FirstBest` in `selection.dfy`. `Wrappers.Option` stands for
Python's `None`.

Two points of the Connect-Four search, as `connect4.py` writes it:
- `minimax` searches each child on a copy (`b_copy = [r.copy() for r in board]`,
  connect4.py:166), and so does the model.
- `minimax` is fail-soft. At the root window (-inf, +inf) it returns plain
  minimax's column and value (`RootSearchIsPlainMinimax`). Inside a narrower
  window only the relation `FailSoft` holds (`AlphaBetaFailSoft`).

## Model

| member | source | states |
|---|---|---|
| ExtInts.Max | X_O_game.py:91 | `max(max_eval, eval_score)`: the result is one of the two arguments and at least both |
| ExtInts.Min | X_O_game.py:103 | `min(min_eval, eval_score)`: the result is one of the two arguments and at most both |
| Selection.FirstBest | X_O_game.py:122-124 | definition of the strict `>` selection shared with connect4.py:139-141; its meaning is stated by FirstBestIsFirstMaximum |
| Selection.FirstBestIsFirstMaximum | X_O_game.py:112-124 | the strict `>` selection keeps nothing iff there are no candidates; otherwise it keeps the first candidate of greatest score: every earlier one scores strictly less, every later one no more |
| TicTacToe.Place | X_O_game.py:88 | `board[i][j] = mark` changes that cell and no other |
| TicTacToe.LinesAreValid | X_O_game.py:18-44 | the eight scanned lines (three rows, three columns, and the constants `FirstDiagonal` and `SecondDiagonal` of X_O_game.py:1-2) consist of on-board cells |
| TicTacToe.CheckWinner | X_O_game.py:18-44 | definition: the scan over the eight lines, rows first; its meaning is stated by CheckWinnerIsFirstLine |
| TicTacToe.EmptyCells | X_O_game.py:54-61 | definition: the blank cells in row-major order; its meaning is stated by EmptyCellsExact |
| TicTacToe.MinimaxValue | X_O_game.py:63-105 | definition of `minimax`'s score: `10 - depth` for a player win, `depth - 10` for an opponent win, 0 on a full board, otherwise the max/min over the children; bounded by MinimaxBounds, computed by Minimax |
| TicTacToe.ChildValue | X_O_game.py:86-102 | definition of one child's score: mark the k-th empty cell and search one ply deeper for the other side |
| TicTacToe.BestMove | X_O_game.py:107-126 | definition of `find_best_move`'s result; its meaning is stated by BestMoveIsFirstMaximum |
| TicTacToe.HorizontalTraversal | X_O_game.py:4-9 | returns the three cells `(num, 0..2)` of row `num` |
| TicTacToe.VerticalTraversal | X_O_game.py:11-16 | returns the three cells `(0..2, num)` of column `num` |
| TicTacToe.CheckWinnerFromIsFirstLine | X_O_game.py:21-44 | scanning from line k, the result is None iff no later line is won; otherwise it is the mark on the first won line |
| TicTacToe.CheckWinnerIsFirstLine | X_O_game.py:18-44 | `check_winner` is None iff no row, column or diagonal holds three equal non-blank marks; otherwise it returns a non-blank mark, the one on the first such line in the order rows, columns, main diagonal, anti-diagonal |
| TicTacToe.IsFull | X_O_game.py:46-52 | true iff no cell is `' '` |
| TicTacToe.EmptyCellsSound | X_O_game.py:54-61 | every listed cell is on the board and blank |
| TicTacToe.EmptyCellsExact | X_O_game.py:54-61 | the list holds exactly the blank cells, in strictly increasing row-major order, hence without duplicates |
| TicTacToe.FullIffNoEmptyCells | X_O_game.py:46-61 | the board is full iff `get_empty_cells` is empty |
| TicTacToe.EmptyCellsShrink | X_O_game.py:86-89 | marking a blank cell removes exactly one empty cell, the measure by which `minimax` terminates |
| TicTacToe.GetEmptyCells | X_O_game.py:54-61 | the double loop returns `EmptyCells`, the list of blank cells |
| TicTacToe.Fold | X_O_game.py:83-91 | after no children the running extremum is -inf (maximizer) or +inf (minimizer); after one or more it is finite |
| TicTacToe.FoldAttains | X_O_game.py:86-103 | the running max/min equals the score of one of the children already seen |
| TicTacToe.FoldBounds | X_O_game.py:86-103 | the running max bounds every child seen from above, the running min from below |
| TicTacToe.MinimaxBounds | X_O_game.py:72-105 | when depth plus the number of empty cells is at most 10, the minimax score lies in `[depth - 10, 10 - depth]` |
| TicTacToe.ChildBounds | X_O_game.py:86-101 | the same bounds one ply deeper for each child |
| TicTacToe.Minimax | X_O_game.py:63-105 | returns `MinimaxValue` and restores the board to its state before the call |
| TicTacToe.PlaceAndEvaluate | X_O_game.py:87-90 | place, recurse, reset: the child's score, with the board unchanged afterwards |
| TicTacToe.MoveScores | X_O_game.py:116-119 | one score per empty cell |
| TicTacToe.BestMoveIsFirstMaximum | X_O_game.py:107-126 | `find_best_move` is None iff there are no empty cells; otherwise it returns a blank cell, the first in row-major order whose score is greatest |
| TicTacToe.FindBestMove | X_O_game.py:107-126 | returns `BestMove` and leaves the board unchanged |
| TicTacToe.PlaceAndScore | X_O_game.py:117-120 | place the player's mark, score the reply with `minimax(board, 0, False, ...)`, reset: the board is unchanged |
| Connect4Board.EmptyGrid | connect4.py:25-26 | definition of the grid `create_board` returns; its ensures spells out that every cell is EMPTY |
| Connect4Board.CreateBoard | connect4.py:25-26 | a fresh ROWS×COLS board whose cells are all EMPTY |
| Connect4Board.CopyBoard | connect4.py:166 | a fresh array holding the same cells |
| Connect4Board.Drop | connect4.py:28-29 | definition of the grid after `board[row][col] = piece`; its meaning is stated by DropChangesOneCell |
| Connect4Board.IsValidLocation | connect4.py:31-32 | definition: the top cell `board[0][col]` is EMPTY |
| Connect4Board.GetValidLocations | connect4.py:127-128 | definition of the comprehension; its meaning is stated by ValidLocationsExact |
| Connect4Board.WinningMove | connect4.py:56-77 | definition: the four direction scans; its meaning is stated by WinningMoveIffRun |
| Connect4Board.PositionScore | connect4.py:96-125 | definition: centre bonus plus the four window sections; bounded by PositionScoreBounds, computed by ScorePosition |
| Connect4Board.BestColumn | connect4.py:130-142 | definition of `pick_best_move`'s result; its meaning is stated by BestColumnIsFirstMaximum |
| Connect4Board.DropChangesOneCell | connect4.py:28-29 | dropping writes `piece` at `(row, col)` and leaves every other cell as it was |
| Connect4Board.DropPiece | connect4.py:28-29 | the board afterwards is the old board with that one cell written |
| Connect4Board.NextOpenRowFrom | connect4.py:34-38 | the downward scan from row r returns the largest EMPTY row at or below r, or None iff there is none |
| Connect4Board.NextOpenRow | connect4.py:34-38 | `get_next_open_row` returns the largest row whose cell is EMPTY, or None iff the column has no EMPTY cell |
| Connect4Board.GetNextOpenRow | connect4.py:34-38 | the downward loop returns `NextOpenRow` |
| Connect4Board.EmptyGridGravity | connect4.py:25-26 | the empty board satisfies the gravity invariant (pieces stack from the bottom row) |
| Connect4Board.ValidIffOpenRow | connect4.py:31-38 | under gravity, `is_valid_location` holds iff `get_next_open_row` is not None |
| Connect4Board.DropKeepsGravity | connect4.py:28-38 | dropping into the next open row keeps the gravity invariant |
| Connect4Board.ValidBeforeExact | connect4.py:127-128 | the columns below k with an empty top cell are listed exactly, ascending |
| Connect4Board.ValidLocationsExact | connect4.py:127-128 | `get_valid_locations` lists, ascending, exactly the columns whose row-0 cell is EMPTY |
| Connect4Board.ValidColumn | connect4.py:127-128 | each listed column is on the board and accepts a piece |
| Connect4Board.StartsAreInBoundsRuns | connect4.py:56-77 | the start cells scanned per direction are exactly the in-bounds starts of runs of four |
| Connect4Board.ScanFromFindsRun | connect4.py:58-76 | scanning one direction from the k-th start finds a run iff one of the remaining starts begins a run of four `piece` |
| Connect4Board.WinningMoveIffRun | connect4.py:56-77 | `winning_move` holds iff some in-bounds horizontal, vertical, down-right or up-right run of four cells holds only `piece` |
| Connect4Board.Count | connect4.py:83-85 | `window.count(x)` is at most the window's length |
| Connect4Board.CountDistinct | connect4.py:83-85 | the counts of three distinct values add up to at most the length |
| Connect4Board.EvaluateWindow | connect4.py:80-94 | the window score lies in `[-4, 100]` |
| Connect4Board.EvaluateWindowCases | connect4.py:80-94 | on a window of four, the score is one of 100, 5, 2, 0, -4; it is 100 iff all four are own pieces; it is -4 iff the opponent has three and one cell is empty |
| Connect4Board.ColumnArray | connect4.py:111 | definition of `col_array`; its ensures spells out that it holds column `col` from top to bottom |
| Connect4Board.WindowAt | connect4.py:107-123 | every scored window has length four |
| Connect4Board.LoopWindow | connect4.py:104-124 | the window at loop indices (i, j) of a section has length four |
| Connect4Board.LineScore | connect4.py:106-108 | the first j windows of a line add up to between `-4 * j` and `100 * j` |
| Connect4Board.SectionScore | connect4.py:104-124 | the first i lines of a section add up to between `-20 * i` and `500 * i` |
| Connect4Board.AntiDiagonalWindowsAreUpRightRuns | connect4.py:121-124 | the window `board[r+3-i][c+i]` is the up-right run that `winning_move` checks from `(r+3, c)`; it is all `piece` iff that run is |
| Connect4Board.CenterScore | connect4.py:99-101 | the center bonus lies between 0 and `3 * ROWS` |
| Connect4Board.PositionScoreBounds | connect4.py:96-125 | `score_position` lies in `[-520, 13024]` |
| Connect4Board.ScorePosition | connect4.py:96-125 | the accumulator loops compute `PositionScore` |
| Connect4Board.AddRowWindows | connect4.py:104-108 | adds the scores of all horizontal windows |
| Connect4Board.AddColumnWindows | connect4.py:110-114 | adds the scores of all vertical windows |
| Connect4Board.AddDiagonalWindows | connect4.py:116-119 | adds the scores of all down-right windows |
| Connect4Board.AddAntiDiagonalWindows | connect4.py:121-124 | adds the scores of all up-right windows |
| Connect4Board.DiagonalWindow | connect4.py:118 | builds the down-right window at `(r, c)` |
| Connect4Board.AntiDiagonalWindow | connect4.py:123 | builds the up-right window at `(r, c)` |
| Connect4Board.GreedyScores | connect4.py:134-138 | one one-ply score per valid column |
| Connect4Board.BestColumnIsFirstMaximum | connect4.py:130-142 | `pick_best_move` returns a valid column whose one-ply score is greatest, the first such in ascending order |
| Connect4Board.PickBestMove | connect4.py:130-142 | the loop over copies returns `BestColumn`; the caller's board is only read |
| Connect4Board.ScoreDrop | connect4.py:135-138 | the score of the copy after dropping `piece` into `col` |
| Connect4Search.DropFillsOneCell | connect4.py:165-167 | dropping into a valid column fills exactly one EMPTY cell, the measure by which `minimax` terminates |
| Connect4Search.ValidChild | connect4.py:164-167 | each valid column accepts a piece and its child board has fewer EMPTY cells |
| Connect4Search.AlphaBeta | connect4.py:148-190 | no column iff depth is 0 or the node is terminal; otherwise the column is a valid location |
| Connect4Search.ABLoop | connect4.py:161-190 | the loop keeps its column among the valid ones, and its value is finite once a child has been searched |
| Connect4Search.PlainMinimax | connect4.py:148-190 | the same search without cutoffs: no column iff depth is 0 or the node is terminal |
| Connect4Search.ChildValues | connect4.py:164-168 | one plain child value per valid column |
| Connect4Search.Loop | connect4.py:164-171 | the loop without cutoff ends with a finite value once a child has been seen |
| Connect4Search.LoopMonotone | connect4.py:169-171 | the plain loop never lowers the maximizer's value and never raises the minimizer's |
| Connect4Search.IsTerminalNode | connect4.py:145-146 | definition: either side has four in a row or no column is valid |
| Connect4Search.LeafValue | connect4.py:151-160 | definition of the leaf value; its cases are stated by LeafResult |
| Connect4Search.LeafResult | connect4.py:149-160 | at a leaf: no column; `100000000000000` if AI has four in a row; otherwise `-10000000000000` if PLAYER has; otherwise 0 on a full board; at depth 0 on a non-terminal node, `score_position(board, AI)` |
| Connect4Search.SentinelsDominateHeuristic | connect4.py:153-160 | a won board outranks every heuristic leaf, which outranks a lost board |
| Connect4Search.PlainMinimaxBounds | connect4.py:148-190 | every plain minimax value lies between the two sentinels |
| Connect4Search.ChildValuesBounds | connect4.py:164-168 | every child value lies between the sentinels |
| Connect4Search.LoopBounds | connect4.py:164-171 | a loop over values between the sentinels ends between them |
| Connect4Search.RootSearchBounds | connect4.py:148-190 | the root search value lies between the two sentinels |
| Connect4Search.AlphaBetaFailSoft | connect4.py:148-190 | for any window alpha < beta, the pruned value v is fail-soft against the plain value m: v <= alpha implies m <= v, v >= beta implies v <= m, strictly inside the window v = m and the columns agree |
| Connect4Search.ChildFailSoft | connect4.py:165-168 | the same, for the child searched in the k-th pass |
| Connect4Search.MaxLoopStart | connect4.py:162-163 | before the first column the maximizer loop state holds |
| Connect4Search.MaxStep | connect4.py:168-174 | one maximizer pass either cuts off both loops at or above beta or keeps the loop state |
| Connect4Search.MaxCutoff | connect4.py:172-174 | at a maximizer cutoff the returned value is fail-soft against the rest of the plain loop |
| Connect4Search.MaxLoopFailSoft | connect4.py:164-175 | the maximizer loops, from column k on, end fail-soft against each other, with the same column inside the window |
| Connect4Search.MaxIteration | connect4.py:164-174 | the k-th pass of both maximizer loops, unfolded once |
| Connect4Search.MinLoopStart | connect4.py:177-178 | before the first column the minimizer loop state holds |
| Connect4Search.MinStep | connect4.py:183-189 | one minimizer pass either cuts off both loops at or below alpha or keeps the loop state |
| Connect4Search.MinCutoff | connect4.py:187-189 | at a minimizer cutoff the returned value is fail-soft against the rest of the plain loop |
| Connect4Search.MinLoopFailSoft | connect4.py:179-190 | the minimizer loops, from column k on, end fail-soft against each other |
| Connect4Search.MinIteration | connect4.py:179-189 | the k-th pass of both minimizer loops, unfolded once |
| Connect4Search.RootSearchIsPlainMinimax | connect4.py:148-190 | called with `(-inf, +inf)`, the pruned search returns exactly the column and value of plain minimax |
| Connect4Search.LoopIsFirstBest | connect4.py:164-171 | the plain loop keeps the first strictly best column of the values seen |
| Connect4Search.LoopFindsFirstBest | connect4.py:161-190 | from the initial value, the loop ends at the first column of best value for the side to move, with that value |
| Connect4Search.FirstBestOfOriented | connect4.py:169-186 | the first best oriented value (negated for the minimizer) is the first greatest value for the maximizer, or the first least for the minimizer |
| Connect4Search.RootColumnIsFirstBest | connect4.py:161-190 | at the root, the pruned search returns the first valid column whose child value is greatest (maximizer) or least (minimizer), together with that value |
| Connect4Search.RootFromLoop | connect4.py:161-190 | the root result read off the plain loop is its first best column |
| Connect4Search.RootSearchIsPlainLoop | connect4.py:161-190 | an inner root node returns the column and the finite value of the plain loop |
| Connect4Search.Minimax | connect4.py:148-190 | the method returns `AlphaBeta`'s `(column, value)`; children are searched on copies, so the caller's board is only read |
| Connect4Search.SearchColumns | connect4.py:161-190 | the loop with `break` computes `ABLoop` from the first column |
| Connect4Search.SearchStep | connect4.py:164-174 | one pass: the value becomes finite, and either the loop stops with this column and value or it goes on from the next column with the narrowed window |
| Connect4Search.SearchChild | connect4.py:165-168 | copy, drop the mover's piece, recurse for the other side: the child's pruned value |
| NumberTheory.Pow | rsa_encryption.py:11-19 | definition of `base^exp`, which `mod_pow` computes modulo `mod` |
| NumberTheory.Prime61 | rsa_encryption.py:6 | 61, one factor of n = 3233, is prime |
| NumberTheory.Prime53 | rsa_encryption.py:6 | 53, the other factor, is prime |
| NumberTheory.Fermat | rsa_encryption.py:6-8 | Fermat's little theorem, a^p ≡ a (mod p), for every prime p |
| NumberTheory.FermatIterated | rsa_encryption.py:6-8 | x^(1 + k(p-1)) ≡ x (mod p) |
| NumberTheory.ChineseRemainder | rsa_encryption.py:6 | divisible by 61 and by 53 implies divisible by 3233 |
| NumberTheory.RsaExponentIdentity | rsa_encryption.py:6-8 | m^(17 · 2753) mod 3233 = m for every m < 3233 |
| Rsa.ModPow | rsa_encryption.py:11-19 | for exp > 0 the result is base^exp mod mod, in [0, mod); for exp <= 0 it is 1, also when mod = 1 |
| Rsa.ModPowStart | rsa_encryption.py:12-13 | the invariant `result · b^e ≡ base^exp` holds before the loop |
| Rsa.ModPowStep | rsa_encryption.py:14-18 | one square-and-multiply pass keeps the invariant |
| Rsa.ModPowEnd | rsa_encryption.py:14-19 | when the loop exits, the invariant gives the result |
| Rsa.SquareAndMultiplyStep | rsa_encryption.py:15-18 | multiplying on odd e and squaring keeps `result · b^e mod m` |
| Rsa.ModPowProductsExact | server1.js:18-21 | products of residues mod 3233 stay below 2^53, so the JavaScript doubles compute them exactly |
| Rsa.EncryptBlock | rsa_encryption.py:68 | definition of `mod_pow(m, e, n)` as `m^17 mod 3233`; ModPow computes it |
| Rsa.DecryptBlock | rsa_encryption.py:96 | definition of `mod_pow(c, d, n)` as `c^2753 mod 3233`; ModPow computes it |
| Rsa.BlockRoundTrip | rsa_encryption.py:68 | decrypting an encrypted block m < 3233 gives m back |
| Rsa.LetterToNumber | rsa_encryption.py:22-29 | the code lies in 0..26 and is positive iff the character is an ASCII letter of either case |
| Rsa.NumberToLetter | rsa_encryption.py:32-37 | `' '` iff 0; an upper-case letter iff 1..26; `'?'` iff outside 0..26 |
| Rsa.NumberToLetterLower | server2.js:26-32 | server2's mapping is rsa_encryption.py's in lower case |
| Rsa.Upper | rsa_encryption.py:23 | definition of ASCII `upper()` on one character |
| Rsa.Lower | server2.js:29 | definition of ASCII lower case, as `96 + num` produces it |
| Rsa.Normalize | rsa_encryption.py:22-37 | definition of what a character becomes through the codec: a letter upper-cased, anything else a space (LetterRoundTrip) |
| Rsa.LetterRoundTrip | rsa_encryption.py:22-37 | `number_to_letter(letter_to_number(c))` is c upper-cased for a letter and a space otherwise |
| Rsa.NumberRoundTrip | rsa_encryption.py:22-37 | letter codes 1..26 survive both mappings, upper and lower case |
| Rsa.Pack | rsa_encryption.py:61-65 | `num1 * 100 + num2` is at most 2626 < 3233, and `// 100`, `% 100` recover the two codes |
| Rsa.Pad | rsa_encryption.py:52-53 | the padded message has even length `2⌈len/2⌉`, keeps the message as prefix and appends only spaces |
| Rsa.EncryptPairs | rsa_encryption.py:57-69 | one block per pair of characters, each in [0, 3233) |
| Rsa.DecryptPairs | rsa_encryption.py:94-105 | before the strip the text has exactly two characters per block |
| Rsa.Strip | rsa_encryption.py:113 | definition of `strip()` on spaces; its meaning is stated by StripTrims |
| Rsa.LeadingSpacesRun | rsa_encryption.py:113 | the count of leading spaces covers the whole run of spaces at the start |
| Rsa.TrailingSpacesRun | rsa_encryption.py:113 | the count of trailing spaces covers the whole run of spaces at the end |
| Rsa.StripTrims | rsa_encryption.py:113 | `strip()` keeps a slice, removes only spaces around it, and the slice is empty or neither starts nor ends with a space |
| Rsa.EncryptMessage | rsa_encryption.py:49-69 | the loop returns `EncryptPairs(Pad(message))`, `⌈len/2⌉` of them, each in [0, 3233) |
| Rsa.DecryptPairsLoop | rsa_encryption.py:92-105 | the accumulation loop builds `DecryptPairs` |
| Rsa.DecryptMessage | rsa_encryption.py:83-118 | the decrypted text, stripped |
| Rsa.DecryptMessageJs | server2.js:35-50 | server2's decrypted text in lower case, trimmed |
| Rsa.PairsRoundTrip | rsa_encryption.py:57-105 | decrypting the blocks of an even-length text gives the text with letters upper-cased and other characters turned into spaces |
| Rsa.StripTrailingSpace | rsa_encryption.py:52-53 | the padding space never survives the strip |
| Rsa.RoundTrip | rsa_encryption.py:133-136 | `decrypt_message(encrypt_message(s))` is the normalised s, stripped |
| Rsa.RoundTripOfLettersAndSpaces | rsa_encryption.py:144 | for messages of letters and spaces only, the result is `message.upper().strip()` |
| Rsa.VerificationLineMismatch | rsa_encryption.py:142-144 | for "A1" the round trip gives "A" while the verification line compares it with "A1" |
| Rsa.LowercaseDecoding | server2.js:26-46 | server2's text before the trim is the Python program's in lower case |
| Rsa.StripLowerAll | server2.js:49 | trimming commutes with lowering |
| Rsa.JsRoundTrip | server2.js:35-50 | server2's `decryptMessage` of server1's `encryptMessage(s)` is the normalised s in lower case, trimmed |

## Left out

- Terminal and graphical I/O is not modelled: `print_board`, the pygame drawing and event loop of `connect4_gui.py`, `play_game`, `get_user_move`, the `__main__` blocks, and every `print`/`console.log` inside the codec.
- Sockets, readline, JSON and event handlers of `server1.js` and `server2.js` are network plumbing and are left out. Only the codec functions are modelled.
- Randomness is left out: `initialize_random_board`, `automated_test`, and the `random.choice` initialisers. In `minimax` and `pick_best_move` the first loop pass always overwrites the chosen column, so the model starts from `valid[0]`.
- The `time.time()` measurements are not modelled.
- JavaScript strings are sequences of UTF-16 code units. The model treats every character as one unit, which agrees for ASCII text.
- Floating point is left out. The infinities are the `ExtInt` type. `str.upper()`, `toUpperCase`, `strip()` and `trim()` are restricted to ASCII, with the space as the only whitespace character.
- Rsa.ModPow: `requires mod > 0`. With `mod == 0` Python raises ZeroDivisionError and JavaScript computes NaN. A negative modulus is not modelled either.
- Rsa.ModPow: a negative base is reduced with Python's floored `%`. JavaScript's `%` would keep the sign. The codec only passes non-negative blocks; a negative base never reaches `server1.js`/`server2.js`.
- Connect4Board.PickBestMove: `requires` a non-empty list of valid columns, because `random.choice([])` raises on a full board.
- Connect4Board.DropPiece: `requires` an in-bounds cell. Python would raise IndexError on a bad index, or wrap it for a negative one.
- TicTacToe.Minimax: `requires` player and opponent marks other than `' '`. With a blank mark a ply may leave the board unchanged, so the number of empty cells is no longer a termination measure; with both marks blank the source recursion never ends. The only caller, X_O_game.py:221, passes 'O' and 'X'.
- The Connect-Four board is 8×8 as in both source files. The model is not parameterised over dimensions or run length.
- The equivalence of pruned and plain search is proved at the root window (-inf, +inf). For other windows only the fail-soft relation is proved, which is what the code guarantees.
- One Dafny `EncryptMessage` models both Python `encrypt_message` and `server1.js` `encryptMessage`. They run the same steps, so "both produce the same blocks" holds by this construction rather than by a separate lemma.

## Findings

| source | as written | input that shows it | evidently intended | confidence | as-written member | corrected member |
|---|---|---|---|---|---|---|
| rsa_encryption.py:142-144 | the verification line compares the decrypted text with `message.upper().strip()` | message "A1": the decryption is "A" (the digit becomes a space and is stripped) but the comparison expects "A1", so "Match: False" is printed for a correct round trip | compare with the message upper-cased, non-letters turned into spaces, then stripped; the codec meets that exactly | not executed | Rsa.VerificationLineMismatch | Rsa.RoundTrip |
