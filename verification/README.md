# PageRank and tic-tac-toe in Dafny

This project models two pure-logic components of a small Python repository and
proves properties of them.

- **PageRank** (`Projeto5PageRank/pagerank/pagerank.py`) covers four pieces:
  - the link clean-up done while crawling a corpus of pages;
  - the transition model of the random surfer, with damping and the
    dangling-page rule;
  - the visit counting of the sampling estimator;
  - the synchronous update pass and the stopping test of the iterative solver.

  Probabilities are exact `real`s. Sums over a dictionary's values are finite
  sums over its key set (module `Sums`), so the sum-to-one promises are proved
  outright rather than up to rounding.
- **Tic-tac-toe** (`Projeto2TicTacToe/tictactoe/tictactoe.py`) covers the
  rules (initial board, whose turn it is, legal moves, applying a move, the
  winner, the end of the game, the utility) and the minimax search built on
  the mutually recursive `min_value` / `max_value`.

Files:

- `sums.dfy` (module `Sums`): finite sums of reals over sets, the independence of the order, linearity, and the exchange of a double sum.
- `pagerank.dfy` (module `PageRank`): link filtering, the transition model, the sampling counts, the update pass, the convergence test and the solver loop.
- `tictactoe.dfy` (module `TicTacToe`): the board, player, actions, result, winner, terminal and utility.
- `minimax.dfy` (module `Minimax`): `max_value`, `min_value` and `minimax`.

Modelling choices:

- **Walks.** The random draws of the sampling estimator are a parameter: `walk`
  is the sequence of pages the surfer visits. Every property about the
  counters holds whatever that walk is.
- **Pass budget.** The iterative solver's unbounded `while not converged` loop
  is bounded by a pass budget `maxPasses`. It reports whether the stopping test
  was met.
- **Boards.** A board is three rows of three cells holding `X`, `O` or
  `Empty` (Python's `None`). A move is an `Action(row, col)` with both
  coordinates in `0..2`.
- **Invalid moves.** Python's `result` raises on an occupied cell. Here it
  returns the `InvalidMove` outcome, and `Play` is the total form for legal
  moves.
- **Iteration order.** Python iterates the set of actions in an unspecified
  order. The model iterates them row by row (`Moves`).
  - The values `min_value` / `max_value` do not depend on that order: they
    are the best reply value (`MaxValueIsBestReply`).
  - Only which of several equally good moves `minimax` returns depends on it.

The code validates none of its parameters:

- An empty corpus, or a page that is not in the corpus, makes the code fail with a Python error. These appear here as
  preconditions, not as error results.
- The damping factor is not range-checked. The non-negativity promises are
  stated for `0 <= d <= 1`.
- The transition probabilities sum to 1 whenever every link target is a page
  of the corpus (`Closed`). Link filtering establishes that, but
  `transition_model` does not assume it.

## Model

| member | source | states |
|---|---|---|
| `PageRank.FilterLinks` | Projeto5PageRank/pagerank/pagerank.py:39-46 | the corpus has the same pages as the extracted links; `q` is a link of `p` exactly when it was extracted from `p`, is not `p` itself and is a page of the corpus; hence no page links to itself and every link target is a page |
| `PageRank.FilterLinksKeepsCleanCorpus` | Projeto5PageRank/pagerank/pagerank.py:42-46 | a corpus that is already closed and free of self-links passes through the filtering unchanged |
| `PageRank.FilterLinksIdempotent` | Projeto5PageRank/pagerank/pagerank.py:39-46 | filtering a filtered corpus changes nothing |
| `PageRank.Transition` | Projeto5PageRank/pagerank/pagerank.py:51-80 | the distribution ranks exactly the corpus pages; from a dangling page every page gets `1/N`; otherwise a linked page gets `(1-d)/N + d/L` and any other page `(1-d)/N`; for `0 <= d <= 1` no probability is negative |
| `PageRank.TransitionSumsToOne` | Projeto5PageRank/pagerank/pagerank.py:63-80 | when every link target is a corpus page, the transition probabilities from any page add up to exactly 1, in both the dangling and the linked case |
| `PageRank.CountVisits` | Projeto5PageRank/pagerank/pagerank.py:96-103 | each page's counter equals the number of times the walk visits it, and the counters add up to the length of the walk |
| `PageRank.SamplePageRank` | Projeto5PageRank/pagerank/pagerank.py:96-112 | for any walk of `n` corpus pages, the estimate ranks exactly the corpus pages, each page's estimate is its visit count divided by `n`, and the estimates add up to 1 |
| `PageRank.InitialRanks` | Projeto5PageRank/pagerank/pagerank.py:129-131 | the solver starts with every corpus page at `1/N`, and these start values add up to 1 |
| `PageRank.InitialEstimate` | Projeto5PageRank/pagerank/pagerank.py:127-131 | the starting ranks satisfy the estimate invariant: exactly the corpus pages, total 1 for a closed corpus, non-negative for `0 <= d <= 1` |
| `PageRank.EffectiveLinks` | Projeto5PageRank/pagerank/pagerank.py:141-144 | the pages a page passes rank to are never empty: its own links, or every page of the corpus when it has none |
| `PageRank.InflowTo` | Projeto5PageRank/pagerank/pagerank.py:138-147 | the inner loop, whatever order it visits the senders in, adds up to the total rank flowing into the page: each sender's rank divided by its effective number of links, counted when it links there |
| `PageRank.RankOf` | Projeto5PageRank/pagerank/pagerank.py:137-149 | a page's new rank is the jump term `(1-d)/N` plus `d` times its inflow |
| `PageRank.UpdatePass` | Projeto5PageRank/pagerank/pagerank.py:135-149 | the outer loop, in any page order, builds the synchronous update: every new rank is computed from the previous ranks |
| `PageRank.UpdatePreservesTotal` | Projeto5PageRank/pagerank/pagerank.py:137-149 | in a closed corpus, ranks that add up to 1 still add up to 1 after an update pass, because each page gives away exactly its own rank |
| `PageRank.ColumnIsRank` | Projeto5PageRank/pagerank/pagerank.py:140-147 | over all receivers, the rank a page passes on adds up to exactly its own rank, including for a dangling page |
| `PageRank.UpdateNonNegative` | Projeto5PageRank/pagerank/pagerank.py:137-149 | for `0 <= d <= 1`, non-negative ranks stay non-negative after an update pass |
| `PageRank.UpdateMatchesTransition` | Projeto5PageRank/pagerank/pagerank.py:137-149 | with ranks adding up to 1, a page's new rank is the probability of being on it after one step of the transition model from a page drawn with the previous ranks, so the update is one step of the random surfer |
| `PageRank.CheckConverged` | Projeto5PageRank/pagerank/pagerank.py:151-155 | the stopping test is true exactly when no page moved by more than 0.001 |
| `PageRank.Round` | Projeto5PageRank/pagerank/pagerank.py:135-156 | one pass of the solver loop yields the update of the previous ranks, keeps the estimate invariant, and reports convergence exactly when no page moved by more than the tolerance |
| `PageRank.IteratePageRank` | Projeto5PageRank/pagerank/pagerank.py:127-158 | the returned ranks are the iterate after the passes made (uniform start, then one synchronous update per pass) and satisfy the estimate invariant; `converged` holds exactly when the last pass moved no page by more than the tolerance, no earlier pass met that test, so the loop stops at the first pass that does, and without convergence the whole budget was used |
| `TicTacToe.InitialState` | Projeto2TicTacToe/tictactoe/tictactoe.py:12-18 | every cell of the starting board is empty |
| `TicTacToe.InitialStateCounts` | Projeto2TicTacToe/tictactoe/tictactoe.py:12-39 | the starting board has nine empty cells, no marks, nine legal moves, and X to play |
| `TicTacToe.InitialStateNotTerminal` | Projeto2TicTacToe/tictactoe/tictactoe.py:63-92 | nobody has won on the starting board and the game is not over |
| `TicTacToe.CountIsMultiplicity` | Projeto2TicTacToe/tictactoe/tictactoe.py:27-34 | the row-by-row count of a mark is its multiplicity among the nine cells |
| `TicTacToe.CountsAddUp` | Projeto2TicTacToe/tictactoe/tictactoe.py:27-34 | the counts of X, O and empty cells add up to 9 |
| `TicTacToe.Player` | Projeto2TicTacToe/tictactoe/tictactoe.py:21-39 | the player to move is X or O, and it is X exactly when X has no more marks than O |
| `TicTacToe.Actions` | Projeto2TicTacToe/tictactoe/tictactoe.py:44-50 | a move is legal exactly when its cell is empty |
| `TicTacToe.RowMoves` | Projeto2TicTacToe/tictactoe/tictactoe.py:47-49 | the moves found in one row from a given column on are exactly the empty cells there, one per empty cell |
| `TicTacToe.RowMovesOrdered` | Projeto2TicTacToe/tictactoe/tictactoe.py:47-49 | the moves of a row are listed in strictly increasing column order |
| `TicTacToe.Moves` | Projeto2TicTacToe/tictactoe/tictactoe.py:44-50 | the list of moves scanned row by row holds exactly the empty cells |
| `TicTacToe.MovesCount` | Projeto2TicTacToe/tictactoe/tictactoe.py:44-50 | the scan lists one move per empty cell |
| `TicTacToe.MovesDistinct` | Projeto2TicTacToe/tictactoe/tictactoe.py:44-50 | the scan lists no move twice |
| `TicTacToe.ActionsCount` | Projeto2TicTacToe/tictactoe/tictactoe.py:44-50 | there are exactly as many legal moves as empty cells |
| `TicTacToe.Result` | Projeto2TicTacToe/tictactoe/tictactoe.py:53-60 | a move on an occupied cell is rejected, and only then; otherwise the new board has the mover's mark in the chosen cell, every other cell unchanged, one more mark of the mover and one empty cell fewer |
| `TicTacToe.Play` | Projeto2TicTacToe/tictactoe/tictactoe.py:53-60 | a legal move gives the board that `Result` accepts, with one empty cell fewer |
| `TicTacToe.PlaceCounts` | Projeto2TicTacToe/tictactoe/tictactoe.py:58-59 | writing a mark into one cell adds one to that mark's count and takes one from the count of the cell's old contents |
| `TicTacToe.ResultAlternatesPlayer` | Projeto2TicTacToe/tictactoe/tictactoe.py:36-60 | on a board reached by alternating moves, a legal move keeps the counts alternating and passes the turn to the other player |
| `TicTacToe.CompletesHasLine` | Projeto2TicTacToe/tictactoe/tictactoe.py:68-78 | a full row, column or diagonal found by the scan is one of the eight winning lines |
| `TicTacToe.HasLineCompletes` | Projeto2TicTacToe/tictactoe/tictactoe.py:68-78 | each of the eight winning lines is found by the scan |
| `TicTacToe.CompletesIffHasLine` | Projeto2TicTacToe/tictactoe/tictactoe.py:68-78 | the row, column and diagonal scan succeeds exactly when the player holds one of the eight winning lines |
| `TicTacToe.Winner` | Projeto2TicTacToe/tictactoe/tictactoe.py:63-78 | the winner is X exactly when X holds a line; it is O exactly when X holds none and O holds one; there is no winner exactly when neither holds a line |
| `TicTacToe.HasEmptyIffActions` | Projeto2TicTacToe/tictactoe/tictactoe.py:88-91 | the scan for an empty cell succeeds exactly when some move is legal |
| `TicTacToe.Terminal` | Projeto2TicTacToe/tictactoe/tictactoe.py:80-92 | the game is over exactly when a player holds a line or no move is legal, equivalently no cell is empty |
| `TicTacToe.Utility` | Projeto2TicTacToe/tictactoe/tictactoe.py:96-106 | the utility is 1 exactly when X has won, -1 exactly when O has won, and 0 exactly when nobody has |
| `Minimax.MaxValue` | Projeto2TicTacToe/tictactoe/tictactoe.py:155-165 | the recursion terminates (the number of empty cells decreases), the value is in -1..1, and on a finished board it is the utility |
| `Minimax.MinValue` | Projeto2TicTacToe/tictactoe/tictactoe.py:143-153 | the recursion terminates, the value is in -1..1, and on a finished board it is the utility |
| `Minimax.MaxOver` | Projeto2TicTacToe/tictactoe/tictactoe.py:160-164 | the running maximum never drops below its start value and exceeds it only up to 1, and over at least one move it is at least -1 |
| `Minimax.MinOver` | Projeto2TicTacToe/tictactoe/tictactoe.py:148-152 | the running minimum never rises above its start value and goes below it only down to -1, and over at least one move it is at most 1 |
| `Minimax.MaxOverAtLeast` | Projeto2TicTacToe/tictactoe/tictactoe.py:160-164 | the running maximum is at least the value of every reply it goes over |
| `Minimax.MaxOverAttained` | Projeto2TicTacToe/tictactoe/tictactoe.py:160-164 | the running maximum ends at its start value or at the value of one of the replies |
| `Minimax.MinOverAtMost` | Projeto2TicTacToe/tictactoe/tictactoe.py:148-152 | the running minimum is at most the value of every reply it goes over |
| `Minimax.MinOverAttained` | Projeto2TicTacToe/tictactoe/tictactoe.py:148-152 | the running minimum ends at its start value or at the value of one of the replies |
| `Minimax.MaxValueIsBestReply` | Projeto2TicTacToe/tictactoe/tictactoe.py:155-165 | before the game ends, X's value is at least the value of every legal reply and equals the value of some legal reply, whatever order the moves are scanned in |
| `Minimax.MinValueIsBestReply` | Projeto2TicTacToe/tictactoe/tictactoe.py:143-153 | before the game ends, O's value is at most the value of every legal reply and equals the value of some legal reply |
| `Minimax.ScanMax` | Projeto2TicTacToe/tictactoe/tictactoe.py:117-125 | the strict-improvement scan keeps the greatest score, and the first candidate that has it; it keeps none only when no score beats the sentinel |
| `Minimax.ScanMin` | Projeto2TicTacToe/tictactoe/tictactoe.py:129-137 | the strict-improvement scan keeps the least score, and the first candidate that has it; it keeps none only when no score is below the sentinel |
| `Minimax.BestMaxMove` | Projeto2TicTacToe/tictactoe/tictactoe.py:116-126 | on a board that is not finished, X's loop returns a legal move whose reply value is at least that of every legal move |
| `Minimax.BestMinMove` | Projeto2TicTacToe/tictactoe/tictactoe.py:128-138 | on a board that is not finished, O's loop returns a legal move whose reply value is at most that of every legal move |
| `Minimax.Minimax` | Projeto2TicTacToe/tictactoe/tictactoe.py:110-138 | there is no move exactly when the game is over; otherwise the move is legal and optimal for the player to act; its resulting value equals the board's value and is the best over all legal moves |

## Left out

- `main`, the command-line check and the printing of results are left out, because they are I/O and presentation.
- The directory scan, the file reading and the HTML link regular expression in `crawl` are left out: they are filesystem I/O and a regex engine. `FilterLinks` starts from the extracted link sets.
- `random.choice` and `random.choices` in `sample_pagerank` are left out, because randomness cannot be verified. The visited pages are the `walk` parameter, and no statistical convergence is claimed.
  - The call of `transition_model` inside the sampling loop only feeds the draw, so it is not modelled.
  - The damping factor is unused once the draw is abstracted.
- Floating-point rounding is not modelled: probabilities are exact reals, so "sums to 1" is exact.
- IteratePageRank: does not prove that the solver loop terminates, because that needs the numerical contraction argument. The loop runs for at most `maxPasses` passes and reports whether it converged.
- Python exceptions for an empty corpus or a page missing from the corpus become preconditions.
- SamplePageRank: requires `n >= 1`. With `n == 0` the Python code raises `ZeroDivisionError`. With `n < 0`, `range(n)` is empty and every page gets `0 / n`, so the estimate adds up to 0 without an error. Neither case is modelled.
- Python negative indices and indices outside `0..2` on a board are not modelled. Coordinates have type `Index`.
- The unreachable `raise NotImplementedError` lines after `return` statements are not modelled.
- Minimax: does not state which of several equally good moves is returned, because that depends on Python's unspecified set iteration order. `ScanMax` / `ScanMin` state the first-best rule for the row-by-row order used here.
