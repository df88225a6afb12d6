# Othello-AI in Dafny

A model of the rules engine and the computer player of a small Othello
program, with proofs about both.

The board is an 8×8 grid indexed `b[x][y]`, like `board[x, y]`. A square
holds 0 (empty), 1 (black) or -1 (white). The game state also holds the
side to move and one pass flag per side.

The files:

- `othello.dfy` (module `Othello`) holds the rules engine:
  - the legality test `is_valid`, modelled as a test of the eight directions one at a time;
  - the move list `get_moves`, in scan order and with its pass-flag bookkeeping;
  - `make_move`, covering placement, flips and passes;
  - disc counts, the terminal test, the winner and the starting position.
- `othello_facts.dfy` (module `OthelloFacts`) says what `make_move` does to every square and to the disc counts. It also covers the pass and terminal bookkeeping.
- `opening.dfy` (module `Opening`) works through the starting position. Black has exactly four opening moves, `get_moves` lists them in a fixed order, and the first of them has a known effect.
- `stability.dfy` (module `Stability`) holds `protection` and `stability`:
  - `protection` walks both sides of each of four axes through a disc and classifies the disc on that axis. Discs of the same colour that the walk crosses inherit the verdict, and every crossed disc is then analysed in turn.
  - A memo of verdicts is threaded through this mutual recursion. Its termination measure is the number of undecided slots: an axis is analysed only while its slot is undecided, recording the verdict removes that slot, and every recursive call comes after such a recording.
  - Every recorded verdict is one that `protection` reaches for a disc of the same colour joined to the slot's disc along that axis.
  - `stability` runs the analysis from the first disc and sorts every disc into one of three buckets.
- `evaluation.dfy` (module `Evaluation`) holds the five evaluation terms and their weighted sum `heuristic`:
  - coin parity, mobility and corners captured;
  - corner closeness and the stability score.
  - Each term is bounded where the source bounds it. The lemmas prove that the whole evaluation is zero-sum: scoring the position for the opponent negates it.
- `search.dfy` (module `Search`) holds the search:
  - `MaxValue` and `MinValue` with alpha-beta pruning. The maximising side keeps the last child of largest value and the minimising side the first child of smallest value, and each loop stops at its cut-off;
  - `GameTree`, the tree of positions they explore;
  - a plain minimax over that same tree.
  - Alpha-beta is proved exact inside its window. So the search in `get_computer_move` computes the minimax value of the position. The source only prints that value and returns the move; the model returns the value alongside the move, which is one that `get_moves` offers.

How the code is modelled:

- **Pass flags.** For a pass, `make_move` sets the flag of the side that is to move after the pass, not of the side that passed (`othello.py:33-39`). The model does the same.
- **Passing inside the search.** When the side to move has no moves, the search builds the passed position and then discards it. It recurses on the unchanged position, one level deeper, in the other role (`minimax.py:26-29`, `minimax.py:59-62`). So the side that cannot move is asked again, and the opponent's replies are never searched below a pass. The model follows the code: `Search.Passing` recurses on the same position, and its contract records that the tree below offers no move.
- **No legality check.** `make_move` does not check that a placement is legal, and the model does not either. The placement lemmas state what happens on any empty square.

## Model

| member | source | states |
|---|---|---|
| Othello.Initial | othello.py:6-16 | the starting position has white on (3,3) and (4,4), black on (3,4) and (4,3), and nothing else; black moves first and neither pass flag is set |
| Opening.InitialCounts | othello.py:6-16 | the starting position has two discs of each colour and sixty empty squares |
| Othello.Put | othello.py:150-151 | writing a square changes that square and no other |
| OthelloFacts.PutCount | othello.py:150-151 | writing a square moves it from the count of its old value to the count of its new one |
| Othello.Opp | othello.py:182-183 | the opponent of a player is the other player |
| Othello.RunFacts | othello.py:110-125 | the scan along one direction passes over exactly the consecutive opponent discs, and it is stopped by the edge or by a square of another colour |
| Othello.CapturesIff | othello.py:100-125 | a direction captures for the mover exactly when it brackets a line of one or more opponent discs with a disc of the mover, and the bracketed length is the run the scan counts |
| Othello.AnyCaptureBrackets | othello.py:110-125 | the scan of the eight directions succeeds exactly when some one direction brackets a line of opponent discs; the model tests the directions one at a time, which agrees with a scan that stops at the first direction that closes |
| Othello.ValidIffBrackets | othello.py:84-127 | `is_valid` holds exactly when the square is empty and some direction brackets a line of opponent discs |
| Othello.LegalMoves | othello.py:18-23 | the move list holds every valid square exactly once, ordered by row `y` and then column `x` |
| Othello.GetMoves | othello.py:18-30 | `get_moves` answers None exactly when no square is valid; otherwise it returns the full ordered list and clears only the mover's pass flag; the board and the turn are untouched |
| Othello.Winner | othello.py:169-180 | the winner is black or white exactly when the game is terminal and that side has strictly more discs; otherwise it is 0, which includes a drawn end |
| OthelloFacts.TerminalIff | othello.py:145-148 | the game is terminal exactly when both sides have passed or every square holds a disc |
| OthelloFacts.CountTotal | othello.py:163-167 | black discs, white discs and empty squares add up to 64 |
| OthelloFacts.CountZero | othello.py:163-167 | a value has count zero exactly when no square holds it |
| OthelloFacts.FlipRunCells | othello.py:74-75 | flipping a stretch of a ray turns exactly its occupied squares into the mover's discs and leaves every other square alone |
| OthelloFacts.FlipRunCounts | othello.py:74-75 | flipping an opponent run of length `n` moves `n` discs from the opponent's count to the mover's count |
| OthelloFacts.FlipDirCells | othello.py:55-79 | one ray of `make_move` flips exactly the squares of its opponent run, and only when that run is closed by the mover's disc |
| OthelloFacts.FlipDirAgrees | othello.py:62-81 | resolving one ray changes no square of the other rays, so resolving the rays one at a time gives the same board as resolving them together |
| OthelloFacts.FlipAllCells | othello.py:62-81 | after all eight rays, a square holds the mover's colour exactly when some ray flipped it, and otherwise keeps its value |
| OthelloFacts.FlippedIffFlanked | othello.py:55-81 | a square is flipped exactly when it lies on a line of opponent discs that starts next to the placed disc and is closed by a disc of the mover |
| OthelloFacts.PlayCells | othello.py:40-82 | after a placement, the placed square and every flanked opponent disc belong to the mover, every other square is unchanged, the turn passes, and the pass flags are kept |
| OthelloFacts.PlayCounts | othello.py:40-82 | a placement on an empty square leaves one fewer empty square; the mover gains the new disc and every flipped one, and the opponent loses the flipped ones |
| OthelloFacts.ValidIffFlips | othello.py:84-127 | on an empty square, `is_valid` holds exactly when `make_move` there would flip at least one disc |
| OthelloFacts.PlayAddsDisc | othello.py:40-82 | a placement on an empty square adds exactly one disc to the board |
| Othello.MakeMove | othello.py:32-82 | every move hands the turn to the opponent; a pass keeps the board and sets the pass flag of the side now to move, keeping the other flag; a placement keeps both flags |
| OthelloFacts.TwoPassesTerminal | othello.py:145-148 | two passes in a row make the game terminal and return the move to the first side |
| Opening.OpeningValidIff | othello.py:84-127 | in the starting position, black may play exactly on (3,2), (2,3), (5,4) and (4,5) |
| Opening.OpeningMovesListed | othello.py:18-30 | `get_moves` on the starting position lists exactly those four squares, in the order [(3,2), (2,3), (5,4), (4,5)] |
| Opening.ScanOrderUnique | othello.py:20-23 | a list ordered by `y` then `x` that holds exactly a given set of squares is determined by that set |
| Opening.FirstMoveCells | othello.py:32-82 | black opening on (3,2) takes (3,2), flips (3,3), leaves (4,4) white and hands the move to white |
| Opening.FirstMoveCounts | othello.py:163-167 | after that opening, black has four discs, white has one, and 59 squares are empty |
| Stability.WalkFacts | minimax.py:125-153 | the discs a side walk records are the consecutive occupied squares from the first step outward |
| Stability.WalkEnd | minimax.py:129-150 | a side walk ends off the board exactly when it reports reaching the border; otherwise it ends on an empty square |
| Stability.WalkOpp | minimax.py:141-144 | a side walk reports meeting the opponent exactly when one of the discs it crossed is of the other colour |
| Stability.AxisVerdictIff | minimax.py:125-163 | on the board, an axis of a disc is protected exactly when an unbroken line of discs runs from it to the border on some side, or when on both sides such a line reaches an opponent disc; it is takeable exactly when neither side reaches the border and exactly one side reaches an opponent disc |
| Stability.Interleave | minimax.py:145-152 | for each step out that both walks reach, the left disc is recorded and then the right one; once the shorter walk has ended the rest of the longer one follows in order; the record holds exactly the discs of both walks |
| Stability.WalkCells | minimax.py:164-169 | every disc a walk crosses is an occupied square other than the disc being analysed, so it has a memo entry |
| Stability.Decide | minimax.py:154-163 | recording a verdict sets that one slot and changes nothing else in the memo, and it strictly shrinks the set of undecided slots |
| Stability.Spread | minimax.py:164-169 | passing the verdict on and recursing into the crossed discs keeps the memo well formed, never reopens a slot, keeps the slot just decided, and keeps every recorded verdict one that `protection` reaches for a same-coloured disc joined to the slot's disc along the axis |
| Stability.JustifiedAlong | minimax.py:164-168 | a disc of the same colour crossed on an axis may inherit a verdict recorded for the disc being analysed: the verdict stays one reached by a same-coloured disc on an unbroken line of discs |
| Stability.ProtectAxes | minimax.py:118-169 | the axis loop skips the slots already decided, possibly by a recursive call, leaves all four slots of the disc decided, and records only verdicts reached by same-coloured discs joined along the axis |
| Stability.Protect | minimax.py:112-169 | `protection` terminates, keeps one four-slot entry for each occupied square, decides every slot of the disc it is called on, and every verdict in the memo is one reached by a same-coloured disc joined along that axis |
| Stability.Discs | minimax.py:235-236 | the disc list holds every occupied square exactly once, ordered by `x` and then `y` |
| Stability.DiscsNonEmpty | minimax.py:239 | the first disc used to seed `protection` exists exactly when the board holds a disc |
| Stability.FreshMemo | minimax.py:237-238 | the starting memo has four undecided slots for each occupied square and no other entry |
| Stability.Verdicts | minimax.py:237-239 | after `protection` runs from the first disc, the memo is well formed, all four slots of that disc are decided, and every decided slot holds a verdict reached by a same-coloured disc joined along that axis |
| Stability.BucketOf | minimax.py:249-263 | a disc is stable exactly when all four of its verdicts are protected, and in danger exactly when it is not stable and some verdict is takeable |
| Stability.CountBuckets | minimax.py:247-263 | the six counters add up to the number of discs counted |
| Stability.StabilityCounts | minimax.py:228-264 | `stability` counts every disc on the board exactly once |
| Stability.StabilitySwap | minimax.py:228-264 | counting for the opponent swaps the player's counters with the opponent's |
| Evaluation.Percent | minimax.py:86 | `100 * (x - y) / (x + y)` lies in [-100, 100], is positive exactly when `x > y`, and is zero exactly when `x == y` |
| Evaluation.CoinParity | minimax.py:79-86 | disc parity lies in [-100, 100], is positive exactly when `p` has more discs, and is zero exactly on equal counts |
| Evaluation.CoinParitySwap | minimax.py:79-86 | disc parity for the opponent is the negation |
| Evaluation.MoveCount | minimax.py:88-93 | a side's move count is the length of its `get_moves` list, and it is zero exactly when the side has no valid square |
| Evaluation.Mobility | minimax.py:88-100 | mobility lies in [-100, 100], is positive exactly when `p` has more moves, and is zero exactly when both sides have as many moves (0 when neither can move) |
| Evaluation.MobilitySwap | minimax.py:88-100 | mobility for the opponent is the negation |
| Evaluation.TallyFull | minimax.py:105-109 | the player's tally is full exactly when every listed square holds the player, and the opponent's tally likewise |
| Evaluation.TallySwap | minimax.py:105-109 | tallying for the opponent exchanges the two tallies |
| Evaluation.CornersCaptured | minimax.py:102-110 | the corner score lies in [-100, 100]; it is 100 exactly when `p` holds all four corners and -100 exactly when the opponent does |
| Evaluation.CornersSwap | minimax.py:102-110 | the corner score for the opponent is the negation |
| Evaluation.ZoneTally | minimax.py:174-225 | at most three squares are counted per corner, and nothing is counted when every corner is taken |
| Evaluation.ZoneTallyOpen | minimax.py:174-225 | corner by corner, only the neighbours of an empty corner are counted: the tally equals a plain count, for `p` and for the opponent, over the neighbours of exactly the empty corners |
| Evaluation.ZoneTallySwap | minimax.py:174-225 | tallying the corner zones for the opponent exchanges the two tallies |
| Evaluation.CornerCloseness | minimax.py:171-226 | corner closeness lies in [-150, 150] and is 0 when every corner is occupied |
| Evaluation.ClosenessSwap | minimax.py:171-226 | corner closeness for the opponent is the negation |
| Evaluation.Relative | minimax.py:273-275 | the relative stability lead is 0 for equal scores and, when the scores sum to a positive number, it is positive exactly when the player's score is larger |
| Evaluation.RelativeSwap | minimax.py:273-275 | exchanging the two scores negates the relative lead, including the zero-sum case that returns 0 |
| Evaluation.StabilityScoreSwap | minimax.py:266-275 | the stability score for the opponent is the negation |
| Evaluation.HeuristicSwap | minimax.py:277-284 | the evaluation is zero-sum: evaluating the board for the opponent negates it |
| Evaluation.HeuristicRest | minimax.py:277-284 | apart from the stability term, the weighted terms sum to a value within 133,000 of 0 |
| Search.Max | minimax.py:39 | `max` returns one of its arguments and is at least both of them, on values that include ±inf |
| Search.Min | minimax.py:72 | `min` returns one of its arguments and is at most both of them |
| Search.GameTree | minimax.py:17-29 | a position won by the searching side is +inf and one it lost is -inf; below the depth limit an undecided position branches exactly when the side to move has a move, offering exactly the `get_moves` list |
| Search.GameTreeShape | minimax.py:17-34 | at the depth limit an undecided position is evaluated for the searching side; a pass node appears only when `get_moves` finds nothing, and below it lies the tree of the same position one level deeper; below each move lies the tree of the position `make_move` produces from the position `get_moves` left behind |
| Search.Open | minimax.py:23-34 | an undecided position above the depth limit offers exactly the `get_moves` list, and branches exactly when that list is non-empty |
| Search.Passing | minimax.py:26-29 | without a move the node passes and, because the same position is searched again, the tree below it offers no move |
| Search.Moving | minimax.py:30-34 | with moves the node branches over exactly the `get_moves` list, in its order |
| Search.MovingKids | minimax.py:30-34 | the moves of a move node are the `get_moves` list, each an empty square, and each child is the tree of the position after playing that move |
| Search.Child | minimax.py:31-32 | the position after a move still holds a disc, so it can be evaluated |
| Search.Subtrees | minimax.py:30-32 | the move list is kept, in order, one entry per move |
| Search.MaxValue | minimax.py:15-45 | a maximising node reports only moves its tree offers, and it reports a move whenever it has one |
| Search.MaxValueChoice | minimax.py:30-45 | with moves, `MaxValue` returns the value of the last explored child whose value is the largest, and that child's move: ties on `>=` go to the later move |
| Search.MaxLoop | minimax.py:30-45 | the maximising loop never lowers the value; `alpha` only rises from child to child; the loop explores every remaining child unless the value reached `beta`; it returns its entry value and move when no explored child reaches that value, and otherwise the last explored child of largest value |
| Search.MaxLoopTrace | minimax.py:30-39 | each value the maximising loop records is what `MinValue` returns for that child, searched with the `alpha` of that moment |
| Search.MaxLoopStops | minimax.py:36-43 | the maximising loop stops at the first child that brings its value to `beta`: the value it was entered with and every explored child before the last one are below `beta` |
| Search.MinValue | minimax.py:48-77 | a minimising node reports only offered moves; with moves, it reports none exactly when its value is +inf |
| Search.MinValueChoice | minimax.py:63-77 | with moves, `MinValue` returns the value of the first explored child whose value is the smallest, and that child's move, so ties on `<` go to the earlier move; it returns +inf and no move exactly when every explored child is worth +inf |
| Search.MinLoop | minimax.py:63-77 | the minimising loop never raises the value; `beta` only falls from child to child; the loop explores every remaining child unless the value dropped to `alpha`; it returns its entry value and move when no explored child is below that value, and otherwise the first explored child of smallest value |
| Search.MinLoopTrace | minimax.py:63-72 | each value the minimising loop records is what `MaxValue` returns for that child, searched with the `beta` of that moment |
| Search.MinLoopStops | minimax.py:69-76 | the minimising loop stops at the first child that brings its value down to `alpha`: the value it was entered with and every explored child before the last one are above `alpha` |
| Search.MaxSound | minimax.py:15-45 | alpha-beta is exact inside its window: clamped to [alpha, beta], the value of `MaxValue` equals the minimax value of the tree |
| Search.MinSound | minimax.py:48-77 | the same for `MinValue` and the minimax value with the opponent to choose |
| Search.MaxLoopSound | minimax.py:30-45 | the move loop of `MaxValue`, including its ties on `>=` and its cut on `value >= beta`, is exact inside the window on the best of the remaining children |
| Search.MinLoopSound | minimax.py:63-77 | the move loop of `MinValue`, including its strict `<` and its cut on `value <= alpha`, is exact inside the window on the least of the remaining children |
| Search.RootTree | minimax.py:10 | at the root, the tree offers the legal moves exactly when the game is undecided and the depth allows a move |
| Search.ComputerMove | minimax.py:7-13 | the search of `get_computer_move` reaches the minimax value of the position; a move is returned exactly when the game is undecided, the depth is positive and a legal move exists; that move is one `get_moves` offers, it is the last explored root move whose searched value is the largest, and the root stops at the first move found to win (+inf) |
| Search.TieExample | minimax.py:30-45 | on a concrete tree, the root search ties two moves at 5 and returns the later one, (2,2), although the minimax value below (2,2) is 3 |

## Left out

- The text interface, the game loop and board printing (`game.py`, `print_board`, `main`) are not part of this model.
- The timing, the `print` of search statistics and the `num_states` counters that `get_computer_move` keeps are not modelled. They do not affect the result.
- Floating point is not modelled. Scores are exact reals: the weight -0.05 becomes -1/20 and 12.5 becomes 25/2. The infinities of the search are the two extra values of `EReal`. Float rounding is left out.
- The memo of `protection` is keyed by the printed form of the square (`f'{piece}'`). The model keys it by the square itself. Both name each square by one key, so nothing changes.
- `numpy` arrays and copies are plain values. A deep copy of the state is just the same value.
- The root call of `get_computer_move` runs `get_moves` on the caller's own state object. That clears the mover's pass flag in the caller's game as a side effect. The model returns the search result only and does not model this effect on the caller.
- The `board == 0: continue` test in the loop over crossed discs in `protection` (`minimax.py:165-166`) is left out. A walk never records an empty square (`Stability.WalkFacts`), so the test never fires.
- The arguments `max_c` and `min_c` of `stability` and `stability_heuristic` are unused by the source and are dropped.
- `is_valid` scans its eight directions in lock step and returns at the first one that closes. The model tests the directions one at a time. `Othello.AnyCaptureBrackets` shows that this test succeeds exactly when some direction brackets a line of opponent discs, which is when the lock-step scan returns true.
- `make_move` resolves its eight rays in lock step. The model resolves them one direction at a time. `OthelloFacts.FlipDirAgrees` shows the rays are disjoint, so the results are the same.
- The evaluation reads only the board, as the source does. Pass flags and the side to move do not enter it.
- The default search depth of 4 is not modelled. `Search.ComputerMove` takes the depth as a parameter, and the depth used by the game loop is outside the core.
- Search.ComputerMove: the contract says which move is returned, the last root move whose searched value is the largest, not that this move reaches the minimax value. Later moves win ties on `>=`, and children are searched with a window that may already be narrowed. So a move whose true value is smaller can tie with the best bound and replace the best move. `Search.TieExample` shows this on a concrete tree.
- Stability.Protect: the contracts say that every recorded verdict is reached by some same-coloured disc on an unbroken line along the axis. They do not say which one. The source overwrites the slot of a crossed disc unconditionally (`minimax.py:167-168`), so the verdict a disc ends up with depends on the order in which discs are visited.
- Evaluation.StabilityScore and Evaluation.Heuristic have no bounds in their contracts. The relative stability lead divides by the sum of two weighted scores that may be close to zero, so the source does not bound it. These two members are covered by their zero-sum lemmas.
- Evaluation.Heuristic, Evaluation.CoinParity, Evaluation.StabilityScore, Stability.StabilityCounts and Stability.Verdicts require a board with at least one disc, and so do the lemmas about them. On an empty board the source raises an error: `coin_parity` divides by zero (`minimax.py:86`) and `stability` takes the first element of an empty disc list (`minimax.py:239`). The model excludes that input instead of modelling the error. No position reachable from the starting one is empty (`OthelloFacts.PlayAddsDisc`).
