# Tic-Tac-Toe solver, modelled in Dafny

This project models the game solver of `tictactoe/tictactoe.py`. The board is a
3x3 grid of cells, each `X`, `O` or empty. The model has the rules of play
(`initial_state`, `player`, `actions`, `result`, `winner`, `terminal`,
`utility`) and the minimax search (`minimax`, `max_value`, `min_value`). The
search shares a memo, `explored_boards`: a list of (board, score) pairs that
the search only ever appends to.

- `game.dfy`, module `Game`: the board and the rules. The source computes
  `player`, `actions` and `terminal` with loops, so they are methods with loop
  invariants. `result` copies the board and then writes one cell, so it is a
  method too. Each of these methods is proved against a specification function:
  `Count`, `ToMove`, `Full`, `Successor`. `winner` and `utility` are
  straight-line checks, so they are functions. `winner` keeps the source's
  indirection: it only looks for lines of the mark opposite to `player(board)`.
- `search.dfy`, module `Search`: the reference game value (`Value`, a ghost
  function), the lemmas about it, and the class `Solver`.
  - `Value` is defined over every empty cell in row-major order. It starts from
    the same ±2 sentinel as the source and keeps the best child value for the
    player to move.
  - `Solver` owns the memo as a field `explored: seq<(Board, int)>`. One
    `Solver` object plays the part of the module-global list: it lives across
    any number of `Minimax` calls.
  - `MaxValue` and `MinValue` keep the source's loops: the best-so-far score
    and action, the early exit at 1 / -1, the linear scan of the memo that
    stops at the first equal board (`Lookup`), and the append after a search.
  - The scoring of one move is factored into `Score`, which both loops call.
    It covers `result`, then `terminal`/`utility`, then the memo scan, then
    the recursive search and the append.
  - `actions` returns a set, and Python does not fix the order in which a set
    is iterated. The loops therefore pick the next move with a
    nondeterministic choice (`:|`), and nothing proved depends on which of
    several equally good moves is returned.

The memo invariant (`Solver.Valid`) says that every remembered board is one
where play goes on, and that its score is that board's game value. Every search
method keeps the invariant and only extends the memo (`old(explored) <=
explored`). Each search is proved to return the game value together with a move
that reaches it.

The model follows the code where it might surprise:
- `result` does not check its action. A marked cell is simply overwritten.
- `utility` returns 0 on a board with no winner, whether or not the game is
  over.
- The memo is one long-lived list, not one list per top-level call.

## Model

| member | source | states |
|---|---|---|
| `Game.InitialState` | tictactoe/tictactoe.py:16-22 | every cell is empty: nine empty cells, no X and no O |
| `Game.Player` | tictactoe/tictactoe.py:25-40 | the loop's tally gives X exactly when the board holds as many X as O, and O otherwise |
| `Game.Actions` | tictactoe/tictactoe.py:43-54 | the set holds exactly the (row, column) pairs whose cell is empty; its size is the number of empty cells; it is empty iff the board is full |
| `Game.Result` | tictactoe/tictactoe.py:57-64 | the returned board is the argument with the action's cell set to the mark of the player to move; the argument board is a value and is left as it was |
| `Game.SuccessorCells` | tictactoe/tictactoe.py:61-62 | after a move, the cell moved to holds the mover's mark (never empty) and every other cell is unchanged |
| `Game.CountPlace` | tictactoe/tictactoe.py:62 | writing a mark into an empty cell adds one of that mark, removes one empty cell and leaves the other mark's count alone |
| `Game.SuccessorBalance` | tictactoe/tictactoe.py:57-64 | a move on an empty cell of a board with #X = #O or #X = #O + 1 keeps that balance, uses up one empty cell and gives the turn to the other player |
| `Game.Winner` | tictactoe/tictactoe.py:66-86 | the result is either no winner or the mark opposite to the player to move, never the player to move |
| `Game.WinnerIffLine` | tictactoe/tictactoe.py:76-86 | `winner` names the last mover exactly when one of the 3 rows, 3 columns or 2 diagonals is entirely that mark |
| `Game.FullIffNoEmpty` | tictactoe/tictactoe.py:93-100 | the scan for an empty cell finds none exactly when the count of empty cells is zero |
| `Game.Terminal` | tictactoe/tictactoe.py:89-104 | the game is over iff no cell is empty or `winner` names a mark |
| `Game.Utility` | tictactoe/tictactoe.py:106-115 | the score is in {-1, 0, 1}: 1 exactly when the winner is X, -1 exactly when it is O, 0 exactly when there is none |
| `Search.BestBounds` | tictactoe/tictactoe.py:135-160 | folding over the cells from k on, the best-so-far score bounds every child value seen (from above for X, from below for O) and is either the ±2 sentinel or one of those values |
| `Search.ValueRange` | tictactoe/tictactoe.py:131-162 | the minimax value of every board is in {-1, 0, 1}, so the first move scored always beats the ±2 sentinel |
| `Search.ValueOptimal` | tictactoe/tictactoe.py:164-195 | on a board where play goes on, the value is at least (X to move) or at most (O to move) every move's value, and some move reaches it |
| `Search.EarlyExit` | tictactoe/tictactoe.py:159-160 | once a move scores 1 for X (-1 for O), the board's value is that score, so stopping the scan early does not change the result |
| `Search.Solver.constructor` | tictactoe/tictactoe.py:129 | the memo starts empty, which satisfies its invariant |
| `Search.Solver.Lookup` | tictactoe/tictactoe.py:145-151 | found iff some entry's board equals the one sought; the score is that of the first such entry, which is the board's value when the memo is sound |
| `Search.Solver.Score` | tictactoe/tictactoe.py:136-158 | the score of a move is the value of the board it leads to, in {-1, 0, 1}; it is a memo hit iff that board is not over and already remembered; a hit or a finished game leaves the memo as it was; otherwise the memo grows and ends with the pair (that board, its score); the memo stays sound and is only extended |
| `Search.Solver.MaxValue` | tictactoe/tictactoe.py:131-162 | for X to move on a board where play goes on: the score is the board's minimax value, the action is an empty cell whose move reaches it, and the memo stays sound and is only appended to |
| `Search.Solver.MinValue` | tictactoe/tictactoe.py:164-195 | the same for O to move |
| `Search.Solver.Minimax` | tictactoe/tictactoe.py:118-127 | no move iff the game is over; otherwise an empty cell whose move keeps the board's minimax value; the memo stays sound and is only appended to |

## Left out

- `pagerank/pagerank.py` is not part of this model. It is file and HTML
  input, sampling from a random source, and floating-point iteration with no
  iteration cap.
- The unused imports at the top of `tictactoe.py` are not modelled.
- Actions are pairs of indices 0 to 2. An out-of-range action makes Python
  raise `IndexError`, and a negative index addresses a cell counted from the
  end. Neither is modelled. The search only ever passes actions from
  `actions`.
- Boards are Dafny values, not nested mutable lists. The deep copy in
  `result` is implicit. Aliasing between boards, and updating a caller's
  board in place, cannot happen in the model.
- Python iterates a set in an order it does not fix. The model chooses
  moves nondeterministically, so it does not say which of several equally good
  moves is returned.
- Search.Solver.Minimax: requires a board with #X = #O or #X = #O + 1, the
  boards that alternating play produces. The memo is keyed by the board alone,
  so a stored score is the game value only if the role a board is searched
  with follows from the board itself. That holds only for these boards.
- Search.Solver.MaxValue: requires a board where play goes on, with #X = #O.
  Given a board that `Minimax` accepts, these are the only boards `minimax`
  and `min_value` pass to it.
- Search.Solver.MinValue: requires a board where play goes on, with
  #X = #O + 1. Given a board that `Minimax` accepts, these are the only
  boards `minimax` and `max_value` pass to it.
- The claim that optimal play from the empty board ends in a draw is not
  proved. That would need the whole game tree to be unfolded. The value
  lemmas are stated for every board instead.
- Running time and the memo's growth are not modelled.
