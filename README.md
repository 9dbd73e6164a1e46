# Tic-tac-toe board evaluator and minimax search

A Dafny model of the core of a console tic-tac-toe game (`main.c`, and its
C++ twin `main.cpp`). The core has two parts:

- **The board evaluator** (`evaluator.dfy`, module `Evaluator`). The board
  has 9 cells. Each cell holds `'X'`, `'O'`, or its own label `'1' + i`.
  The evaluator covers move validity, the win test over the 8 lines (3 rows,
  3 columns, 2 diagonals), the tie test, and the reset of the board.
- **The "hard" computer opponent** (`search.dfy`, module `Search`). It runs
  minimax with alpha-beta pruning. O maximizes and X minimizes. A position
  is worth 1 when O wins, -1 when X wins and 0 when it is drawn. The search
  works in place on the board: it places a mark, recurses, and writes the
  cell's label back. The root driver tries O on each free cell and keeps
  the first cell with a strictly greater value.

The program keeps the board in a `char` array. The model does the same:
`ClearBoard`, `CheckTie`, `Minimax` and `GetComputerMoveHard` are methods on
an `array<char>`. The pure tests (`IsMoveValid`, `CheckWin`) are functions
on the board's contents, `Board`, a `seq<char>` of length 9.

The search is proved against `MinimaxValue`, a plain minimax without
pruning, defined on board values. `Minimax` meets the fail-soft alpha-beta
contract with respect to it:
- a result at or below alpha is an upper bound on the true value;
- a result at or above beta is a lower bound;
- a result strictly inside the window is the true value.

The root window (-9999, 9999) contains every value, so there the pruned
search returns exactly the unpruned value. Every search method also ends
with the board it started with. This depends on the well-formedness
invariant `WellFormed`: a cell that is not a mark shows its own label, so
writing the label back restores it.

`main.cpp` lines 58-203 repeat `main.c` lines 58-203 line for line, with
two differences:
- in `minimax` the C++ file uses `std::max`/`std::min` where the C file uses
  its own `max`/`min` macros (main.c:13-14), which compute the same values;
- in `getMovePlayer` (main.cpp:114-115) the C++ file prompts and reads with
  `std::cout`/`std::cin` where the C file uses `printf`/`scanf`. This is
  console I/O, which the model leaves out.

One model covers both files. The table cites whichever file states
the property more directly.

The source's single `minimax` function is split into three methods:
- `Minimax` holds the terminal tests (main.c:135-143);
- `ScanMoves` holds the scan over the cells, the window updates and the
  cutoff (main.c:145-175);
- `TryMove` holds place, recurse and restore for one cell (main.c:159-161).

The root driver reuses `TryMove` for its own place, search and restore
(main.c:186-188). The behaviour is the same; the split keeps each proof
small.

Three facts about the code that the model keeps:
- With no free cell, `getComputerMoveHard` returns -1 (`NoMove`).
- `checkTie` only tests that every cell is claimed. It does not look for a
  line.
- Win and tie are separate tests. `minimax` applies them in the order O's
  line, X's line, full board.

When several cells are equally good, the root driver keeps the lowest one,
because it replaces its choice only on a strictly greater value
(main.c:190). On the board X X 3 / O O 6 / 7 8 9 with O to move, cell 5
wins at once, but cell 2 is also a forced win: it threatens both row
3-4-5 and diagonal 2-4-6. So the search picks cell 2, not 5
(`Search.ForkBoardPicksCellTwo`).

## Model

| member | source | states |
|---|---|---|
| `Evaluator.IsMoveValid` | main.c:58-65 | a move is valid exactly when 0 <= move < 9 and the cell holds neither 'X' nor 'O'; the range is tested before the cell is read (corrected bound, see Findings) |
| `Evaluator.ValidMoveShowsLabel` | main.cpp:58-65 | on a well-formed board a move is valid exactly when it is in 0..8 and the cell shows its own label '1'+i |
| `Evaluator.IsMoveValidAsWritten` | main.c:58-65 | the guard as written: it reads the cell before the range test, and rejects only a marked cell, move < 0 or move > 9 |
| `Evaluator.AsWrittenAcceptsIndexNine` | main.c:59-64 | the guard as written (cell read first, range test `> BOARD_SIZE`) accepts index 9 whenever the byte after the board is not a mark, while the corrected guard rejects it |
| `Evaluator.AsWrittenAgreesOnCells` | main.cpp:59-64 | for indices 0..8 the written guard and the corrected one give the same answer |
| `Evaluator.CheckWin` | main.c:67-93 | the eight tests in the source's order, rows then columns then diagonals; a true result means the player fills one of the 8 lines (the converse is `CheckWinMeansLine`) |
| `Evaluator.CheckWinMeansLine` | main.c:67-93 | `checkWin(board, p)` is true exactly when p occupies all three cells of one of the 8 lines {0,1,2},{3,4,5},{6,7,8},{0,3,6},{1,4,7},{2,5,8},{0,4,8},{2,4,6} |
| `Evaluator.CheckTie` | main.c:95-102 | the scan returns true exactly when every one of the 9 cells holds 'X' or 'O'; it does not look for a line |
| `Evaluator.ClearBoard` | main.c:104-108 | afterwards cell i holds '1'+i for every i |
| `Evaluator.ClearedBoardIsFresh` | main.cpp:104-108 | a cleared board is well formed, every index 0..8 is a valid move, neither player has a line, it is not a tie, and all 9 cells are unclaimed |
| `Evaluator.EmptyCountAfterPlace` | main.c:158-160 | placing a mark on a free cell leaves exactly one free cell fewer, so the recursion descends at most 9 levels |
| `Evaluator.PlaceThenRestore` | main.c:159-161 | placing a mark on a free cell keeps the board well formed, and writing the label '1'+i back gives exactly the board before the move |
| `Search.MinimaxValue` | main.cpp:134-176 | the unpruned game value of every board lies in {-1, 0, 1} |
| `Search.FoldChildren` | main.c:156-168 | combining a running best with the children of cells i..8 never lowers it for O (max) and never raises it for X (min), and lands in -1..1 once a free cell is seen |
| `Search.FoldChildrenIsExtreme` | main.c:162-168 | the fold of the children is at least (for O) or at most (for X) every child's value, and is either the starting best or the value of one of the children |
| `Search.MinimaxValueIsBestChild` | main.cpp:145-175 | on a board nobody has won that is not full, the unpruned value is the largest child value when O moves and the smallest when X moves, and some free cell attains it |
| `Search.WindowStep` | main.c:162-172 | after one child, the running best and the narrowed window keep the fail-soft relation to the unpruned value, or the window closes with a result that bounds the value from the side of the cutoff |
| `Search.WindowExit` | main.c:157-175 | a scan that reaches the last cell without a cutoff returns a fail-soft result for the node |
| `Search.Minimax` | main.c:134-176 | the board is unchanged; the result is 1 if O has a line, else -1 if X has a line, else 0 if the board is full; it lies in {-1,0,1}; it is a fail-soft alpha-beta bound on the unpruned value; in a window wider than -1..1 (the root's -9999..9999) it equals the unpruned value |
| `Search.ScanMoves` | main.c:145-175 | the board is unchanged, the result lies in -1..1, and it is a fail-soft bound on the best child value for the side to move |
| `Search.TryMove` | main.c:159-161 | placing the mover's mark, searching with the window carried down and the flag flipped, and restoring '1'+i leaves the board unchanged and returns a fail-soft bound on that child's value |
| `Search.GetComputerMoveHard` | main.c:178-198 | the board is unchanged; the result is -1 exactly when no cell is free; otherwise it is a free cell whose value for O is maximal, and the lowest such cell |
| `Search.FirstBestMoveIsUnique` | main.cpp:190-193 | at most one cell is the lowest free cell with maximal value, so the choice is determined by the board |
| `Search.FirstBestMoveTakesWin` | main.cpp:184-195 | when O can complete a line at once, the chosen move is worth a win (1) to O |
| `Search.ForkBoardPicksCellTwo` | main.c:184-195 | on X X 3 / O O 6 / 7 8 9 with O to move, cell 5 is worth a win to O, and the move the search must return is cell 2, the lowest cell that also forces a win |
| `Search.GetComputerMove` | main.c:200-203 | with difficulty 2 on any turn but the first, the move is the hard search's choice and the board is unchanged; otherwise it is the random move supplied by the caller |

## Findings

| source | as written | input that shows it | evidently intended | confidence | as-written member | corrected member |
|---|---|---|---|---|---|---|
| main.c:58-65 | `isMoveValid` reads `board[move]` before testing the range, and the range test is `move > BOARD_SIZE`, which lets 9 through | move = 9 (a player typing 10): the read goes past the 9-cell board, and the move is accepted when that byte is not 'X' or 'O'; the turn loop then writes `board[9]` | accept only 0 <= move <= 8, tested before the cell is read | high; not executed | `Evaluator.AsWrittenAcceptsIndexNine` | `Evaluator.IsMoveValid` |

`Evaluator.IsMoveValidAsWritten` models the guard as written. It reads the
cell first, over a memory `mem` that may extend past the board. The rest of
the model uses the corrected `Evaluator.IsMoveValid`.

## Left out

- `printmenu`, `printBoard` and the `system(clear)` calls (main.c:20-56) are console output.
- `getMovePlayer`, `computerSetup`, `gameloop` and `main` (main.c:110-119, 205-297) read standard input and run the menu and turn loops. The model has no I/O.
- `getComputerMoveEasy` (main.c:121-132) depends on `srand(time(NULL))` and `rand()`. `Search.GetComputerMove` takes its result as the parameter `easyMove`. Its candidate `rand() % (BOARD_SIZE - 1)` never yields 8, so it would keep drawing forever when cell 8 is the only free cell. This random path is not modelled.
- Evaluator.IsMoveValidAsWritten: covers only indices the read can reach (0 <= move < |mem|). The read of `board[move]` for a negative index, which is undefined behaviour in C, is not modelled.
- Search.Minimax: requires alpha < beta. Every call in the program satisfies this: the root opens (-9999, 9999), and the scan only recurses while alpha < beta. With a closed window the source can return its sentinel ±1000, and the fail-soft contract does not hold there.
- The claim that optimal play from the empty board always ends in a draw is not proved. Proving it means evaluating the whole game tree of the empty board inside the verifier.
- C `int` overflow cannot occur: every value stays within -9999..9999, so the model uses unbounded `int`.
