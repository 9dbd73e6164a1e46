/** The board evaluator of the tic-tac-toe game: the 9-cell board, move
    validity, win and tie detection and the reset of the board. */
module Evaluator {

  const BoardSize: nat := 9
  const PlayerX: char := 'X'
  const PlayerO: char := 'O'

  /** The contents of the board, cell 0 top left to cell 8 bottom right. */
  type Board = b: seq<char> | |b| == BoardSize witness "123456789"

  /** A cell that a player has claimed. */
  predicate IsMark(c: char) {
    c == PlayerX || c == PlayerO
  }

  /** The label an unclaimed cell shows: its 1-based position, '1' to '9'. */
  function Label(i: nat): (c: char)
    requires i < BoardSize
    ensures !IsMark(c)
  {
    ('1' as int + i) as char
  }

  /** Every cell holds a mark or its own label: what clearing establishes
      and what placing a mark on a valid cell keeps. */
  predicate WellFormed(b: Board) {
    forall i :: 0 <= i < BoardSize ==> IsMark(b[i]) || b[i] == Label(i)
  }

  // ---------------------------------------------------------------------
  // Move validity

  /** A move is valid when it names a cell of the board that no player has
      claimed. The range is tested before the cell is read, with the bound
      0..8 (see IsMoveValidAsWritten for the guard as the program has it). */
  function IsMoveValid(b: Board, move: int): (valid: bool)
    ensures valid <==> 0 <= move < BoardSize && b[move] != PlayerX && b[move] != PlayerO
  {
    var outOfRange := move < 0 || move >= BoardSize;
    var taken := !outOfRange && (b[move] == PlayerX || b[move] == PlayerO);
    !(taken || outOfRange)
  }

  /** On a well-formed board a cell is free exactly when it shows its label. */
  lemma ValidMoveShowsLabel(b: Board, move: int)
    requires WellFormed(b)
    ensures IsMoveValid(b, move) <==> 0 <= move < BoardSize && b[move] == Label(move)
  {
  }

  /** The guard as the program writes it: the cell is read before the range
      is tested, and the range test only rejects indices above BoardSize.
      `mem` stands for the memory starting at the board, which may extend
      past its 9 cells. */
  function IsMoveValidAsWritten(mem: seq<char>, move: int): (valid: bool)
    requires 0 <= move < |mem|
    ensures valid ==> move <= BoardSize && !IsMark(mem[move])
    ensures move <= BoardSize && !IsMark(mem[move]) ==> valid
  {
    var taken := mem[move] == PlayerX || mem[move] == PlayerO;
    var outOfRange := move < 0 || move > BoardSize;
    !(taken || outOfRange)
  }

  /** Index 9 (a player typing 10) passes the written guard whenever the byte
      after the board is not a mark, although the board has no cell 9; the
      corrected guard rejects it. */
  lemma AsWrittenAcceptsIndexNine(b: Board, after: char)
    requires !IsMark(after)
    ensures IsMoveValidAsWritten(b + [after], BoardSize)
    ensures !IsMoveValid(b, BoardSize)
  {
  }

  /** Below index 9 the written guard and the corrected one agree. */
  lemma AsWrittenAgreesOnCells(b: Board, move: int)
    requires 0 <= move < BoardSize
    ensures IsMoveValidAsWritten(b, move) == IsMoveValid(b, move)
  {
  }

  // ---------------------------------------------------------------------
  // Win detection

  /** The cells of the 8 winning lines: rows, then columns, then diagonals. */
  function LineCells(k: nat): (cells: (nat, nat, nat))
    requires k < 8
    ensures cells.0 < BoardSize && cells.1 < BoardSize && cells.2 < BoardSize
  {
    match k
    case 0 => (0, 1, 2)
    case 1 => (3, 4, 5)
    case 2 => (6, 7, 8)
    case 3 => (0, 3, 6)
    case 4 => (1, 4, 7)
    case 5 => (2, 5, 8)
    case 6 => (0, 4, 8)
    case 7 => (2, 4, 6)
  }

  /** `player` occupies all three cells of line k. */
  predicate HoldsLine(b: Board, k: nat, player: char)
    requires k < 8
  {
    var (x, y, z) := LineCells(k);
    b[x] == player && b[y] == player && b[z] == player
  }

  /** `player` fills one of the 8 lines: the definition of a win. */
  predicate HasLine(b: Board, player: char) {
    exists k :: 0 <= k < 8 && HoldsLine(b, k, player)
  }

  /** The program's win test: rows, then columns, then diagonals. A hit
      names the line it found. */
  function CheckWin(b: Board, player: char): (won: bool)
    ensures won ==> HasLine(b, player)
  {
    if b[0] == player && b[1] == player && b[2] == player then
      assert HoldsLine(b, 0, player); true
    else if b[3] == player && b[4] == player && b[5] == player then
      assert HoldsLine(b, 1, player); true
    else if b[6] == player && b[7] == player && b[8] == player then
      assert HoldsLine(b, 2, player); true
    else if b[0] == player && b[3] == player && b[6] == player then
      assert HoldsLine(b, 3, player); true
    else if b[1] == player && b[4] == player && b[7] == player then
      assert HoldsLine(b, 4, player); true
    else if b[2] == player && b[5] == player && b[8] == player then
      assert HoldsLine(b, 5, player); true
    else if b[0] == player && b[4] == player && b[8] == player then
      assert HoldsLine(b, 6, player); true
    else if b[2] == player && b[4] == player && b[6] == player then
      assert HoldsLine(b, 7, player); true
    else false
  }

  /** The win test holds exactly when the player fills one of the 8 lines. */
  lemma CheckWinMeansLine(b: Board, player: char)
    ensures CheckWin(b, player) <==> HasLine(b, player)
  {
    // CheckWin's own contract gives one direction; a miss rules out every line
    if !CheckWin(b, player) {
      forall k | 0 <= k < 8
        ensures !HoldsLine(b, k, player)
      {
      }
    }
  }

  // ---------------------------------------------------------------------
  // Tie detection

  /** Every cell is claimed. */
  predicate IsFull(b: Board) {
    forall i :: 0 <= i < BoardSize ==> IsMark(b[i])
  }

  /** The program's tie test: a scan that stops at the first unclaimed cell.
      It does not look for a winning line. */
  method CheckTie(board: array<char>) returns (tie: bool)
    requires board.Length == BoardSize
    ensures tie <==> IsFull(board[..])
  {
    for i := 0 to BoardSize
      invariant forall j :: 0 <= j < i ==> IsMark(board[j])
    {
      if board[i] != PlayerX && board[i] != PlayerO {
        return false;
      }
    }
    return true;
  }

  // ---------------------------------------------------------------------
  // Empty cells

  /** The number of unclaimed cells. */
  function EmptyCount(s: seq<char>): (n: nat)
    ensures n <= |s|
  {
    if s == [] then 0
    else (if IsMark(s[0]) then 0 else 1) + EmptyCount(s[1..])
  }

  /** Claiming an unclaimed cell leaves one unclaimed cell fewer. */
  lemma {:induction false} EmptyCountAfterPlace(s: seq<char>, i: nat, mark: char)
    requires i < |s| && !IsMark(s[i]) && IsMark(mark)
    ensures EmptyCount(s[i := mark]) == EmptyCount(s) - 1
  {
    if i == 0 {
      assert s[i := mark][1..] == s[1..];
    } else {
      EmptyCountAfterPlace(s[1..], i - 1, mark);
      assert s[i := mark][1..] == s[1..][i - 1 := mark];
    }
  }

  /** With no cell claimed, every cell counts as unclaimed. */
  lemma {:induction false} EmptyCountNoMarks(s: seq<char>)
    requires forall i :: 0 <= i < |s| ==> !IsMark(s[i])
    ensures EmptyCount(s) == |s|
  {
    if s != [] {
      EmptyCountNoMarks(s[1..]);
    }
  }

  // ---------------------------------------------------------------------
  // Placing and clearing

  /** Placing a mark on a valid cell keeps the board well formed, and writing
      the cell's label back gives the board it started from. */
  lemma PlaceThenRestore(b: Board, i: nat, mark: char)
    requires WellFormed(b) && IsMoveValid(b, i) && IsMark(mark)
    ensures WellFormed(b[i := mark])
    ensures b[i := mark][i := Label(i)] == b
  {
  }

  /** The board as clearing leaves it: every cell shows its label. */
  function EmptyBoard(): Board {
    seq(BoardSize, i requires 0 <= i < BoardSize => Label(i))
  }

  /** The program's reset: cell i gets the label '1' + i. */
  method ClearBoard(board: array<char>)
    requires board.Length == BoardSize
    modifies board
    ensures board[..] == EmptyBoard()
  {
    for i := 0 to BoardSize
      invariant forall j :: 0 <= j < i ==> board[j] == Label(j)
    {
      board[i] := Label(i);
    }
  }

  /** A cleared board is well formed, every index 0..8 is a valid move, no
      player has a line and the board is not a tie. */
  lemma ClearedBoardIsFresh()
    ensures WellFormed(EmptyBoard())
    ensures forall i :: 0 <= i < BoardSize ==> IsMoveValid(EmptyBoard(), i)
    ensures !CheckWin(EmptyBoard(), PlayerX) && !CheckWin(EmptyBoard(), PlayerO)
    ensures !IsFull(EmptyBoard())
    ensures EmptyCount(EmptyBoard()) == BoardSize
  {
    EmptyCountNoMarks(EmptyBoard());
  }
}
