/** The computer's "hard" opponent: minimax search with alpha-beta pruning
    over the board evaluator. O maximizes, X minimizes; a position is worth
    1 when O wins, -1 when X wins and 0 when it is drawn. */
module Search {
  import opened Evaluator

  /** The running best value a node starts from, outside the range -1..1. */
  const LowSentinel: int := -1000
  const HighSentinel: int := 1000

  /** The window the root driver opens for each of its candidate moves. */
  const RootAlpha: int := -9999
  const RootBeta: int := 9999

  /** What the root driver returns when no cell is free. */
  const NoMove: int := -1

  function Max(a: int, b: int): int { if a > b then a else b }
  function Min(a: int, b: int): int { if a < b then a else b }

  /** The mark of the side to move. */
  function Mover(maximizing: bool): char {
    if maximizing then PlayerO else PlayerX
  }

  /** The running best value a node starts from. */
  function Worst(maximizing: bool): int {
    if maximizing then LowSentinel else HighSentinel
  }

  // ---------------------------------------------------------------------
  // Plain minimax, without pruning: the reference the search is proved against

  /** The game value of `b` when O moves next (`maximizing`) or X does. */
  function MinimaxValue(b: Board, maximizing: bool): (v: int)
    ensures -1 <= v <= 1
    decreases EmptyCount(b), 1
  {
    if HasLine(b, PlayerO) then 1
    else if HasLine(b, PlayerX) then -1
    else if IsFull(b) then 0
    else
      assert IsMoveValid(b, FreeCell(b));
      FoldChildren(b, maximizing, 0, Worst(maximizing))
  }

  /** Some unclaimed cell of a board that is not full. */
  ghost function FreeCell(b: Board): (i: nat)
    requires !IsFull(b)
    ensures i < BoardSize && !IsMark(b[i])
  {
    var i :| 0 <= i < BoardSize && !IsMark(b[i]); i
  }

  /** `best` combined with the values of the children for the cells i..8:
      the maximum when O moves, the minimum when X moves. */
  function FoldChildren(b: Board, maximizing: bool, i: nat, best: int): (v: int)
    requires i <= BoardSize
    requires best == Worst(maximizing) || -1 <= best <= 1
    ensures v == Worst(maximizing) || -1 <= v <= 1
    ensures (exists j :: i <= j < BoardSize && IsMoveValid(b, j)) ==> -1 <= v <= 1
    ensures maximizing ==> v >= best
    ensures !maximizing ==> v <= best
    decreases EmptyCount(b), 0, BoardSize - i
  {
    if i == BoardSize then best
    else if IsMoveValid(b, i) then
      var child := ChildValue(b, maximizing, i);
      FoldChildren(b, maximizing, i + 1, if maximizing then Max(best, child) else Min(best, child))
    else
      FoldChildren(b, maximizing, i + 1, best)
  }

  /** The game value after the side to move claims the free cell i. */
  function ChildValue(b: Board, maximizing: bool, i: nat): (v: int)
    requires IsMoveValid(b, i)
    ensures -1 <= v <= 1
    decreases EmptyCount(b), 0, 0
  {
    EmptyCountAfterPlace(b, i, Mover(maximizing));
    MinimaxValue(b[i := Mover(maximizing)], !maximizing)
  }

  /** The fold picks an extreme child: no child of a cell in i..8 beats it,
      and it is `best` or the value of one of those children. */
  lemma {:induction false} FoldChildrenIsExtreme(b: Board, maximizing: bool, i: nat, best: int)
    requires i <= BoardSize
    requires best == Worst(maximizing) || -1 <= best <= 1
    ensures forall j :: i <= j < BoardSize && IsMoveValid(b, j) ==>
              if maximizing then ChildValue(b, maximizing, j) <= FoldChildren(b, maximizing, i, best)
              else ChildValue(b, maximizing, j) >= FoldChildren(b, maximizing, i, best)
    ensures || FoldChildren(b, maximizing, i, best) == best
            || exists j :: i <= j < BoardSize && IsMoveValid(b, j)
                 && FoldChildren(b, maximizing, i, best) == ChildValue(b, maximizing, j)
    decreases BoardSize - i
  {
    if i < BoardSize {
      var next := if !IsMoveValid(b, i) then best
                  else if maximizing then Max(best, ChildValue(b, maximizing, i))
                  else Min(best, ChildValue(b, maximizing, i));
      FoldChildrenIsExtreme(b, maximizing, i + 1, next);
    }
  }

  /** Plain minimax in its textbook form: on a board nobody has won and that
      is not full, the value is the best child value for the side to move,
      the largest when O moves and the smallest when X moves. */
  lemma MinimaxValueIsBestChild(b: Board, maximizing: bool)
    requires !HasLine(b, PlayerO) && !HasLine(b, PlayerX) && !IsFull(b)
    ensures forall j :: 0 <= j < BoardSize && IsMoveValid(b, j) ==>
              if maximizing then ChildValue(b, maximizing, j) <= MinimaxValue(b, maximizing)
              else ChildValue(b, maximizing, j) >= MinimaxValue(b, maximizing)
    ensures exists j :: 0 <= j < BoardSize && IsMoveValid(b, j)
              && MinimaxValue(b, maximizing) == ChildValue(b, maximizing, j)
  {
    assert IsMoveValid(b, FreeCell(b));
    FoldChildrenIsExtreme(b, maximizing, 0, Worst(maximizing));
  }

  /** `eval` is what alpha-beta search with window (alpha, beta) may return
      for a position whose game value is `value`: an upper bound when it
      fails low, a lower bound when it fails high, the value itself inside
      the window. */
  predicate FailSoft(eval: int, value: int, alpha: int, beta: int) {
    && (eval <= alpha ==> value <= eval)
    && (eval >= beta ==> value >= eval)
    && (alpha < eval < beta ==> value == eval)
  }

  /** What the scan of one node keeps between children, with `maxEval` the
      running best result, `value` the running best game value of the same
      children, and (lo, hi) the window as the scan has narrowed it from
      (alpha, beta). */
  ghost predicate Window(maximizing: bool, maxEval: int, value: int, lo: int, hi: int, alpha: int, beta: int) {
    && lo < hi
    && (value == Worst(maximizing) || -1 <= value <= 1)
    && (maxEval == Worst(maximizing) || -1 <= maxEval <= 1)
    && (maxEval == Worst(maximizing) ==> value == maxEval && lo == alpha && hi == beta)
    && (maximizing && maxEval != Worst(maximizing) ==> hi == beta && lo == Max(alpha, maxEval))
    && (!maximizing && maxEval != Worst(maximizing) ==> lo == alpha && hi == Min(beta, maxEval))
    && (maximizing ==> (maxEval <= alpha ==> value <= maxEval) && (alpha < maxEval ==> value == maxEval))
    && (!maximizing ==> (maxEval >= beta ==> value >= maxEval) && (maxEval < beta ==> value == maxEval))
  }

  /** One child folded into the scan keeps the window, or closes it with a
      result that bounds the node's game value from the side of the cutoff. */
  lemma WindowStep(maximizing: bool, maxEval: int, value: int, lo: int, hi: int, alpha: int, beta: int,
                   eval: int, child: int)
    requires Window(maximizing, maxEval, value, lo, hi, alpha, beta)
    requires -1 <= eval <= 1 && -1 <= child <= 1
    requires FailSoft(eval, child, lo, hi)
    ensures var maxEval' := if maximizing then Max(eval, maxEval) else Min(eval, maxEval);
            var lo' := if maximizing then Max(lo, maxEval') else lo;
            var hi' := if maximizing then hi else Min(hi, maxEval');
            var value' := if maximizing then Max(value, child) else Min(value, child);
            && -1 <= maxEval' <= 1
            && (lo' < hi' ==> Window(maximizing, maxEval', value', lo', hi', alpha, beta))
            && (hi' <= lo' && maximizing ==> beta <= maxEval' <= value')
            && (hi' <= lo' && !maximizing ==> value' <= maxEval' <= alpha)
  {
  }

  /** A scan that ran through all cells without a cutoff and saw at least one
      child returns a fail-soft result for the node. */
  lemma WindowExit(maximizing: bool, maxEval: int, value: int, lo: int, hi: int, alpha: int, beta: int)
    requires Window(maximizing, maxEval, value, lo, hi, alpha, beta)
    requires maxEval != Worst(maximizing)
    ensures FailSoft(maxEval, value, alpha, beta)
  {
  }

  // ---------------------------------------------------------------------
  // The search as the program runs it, in place on the board

  /** Alpha-beta search: a won or full board is scored at once (O's line
      first, then X's, then the tie); any other board is scanned by
      ScanMoves. */
  method Minimax(board: array<char>, alpha: int, beta: int, maximizing: bool) returns (result: int)
    requires board.Length == BoardSize && WellFormed(board[..])
    requires alpha < beta
    modifies board
    ensures board[..] == old(board[..])
    ensures -1 <= result <= 1
    ensures HasLine(old(board[..]), PlayerO) ==> result == 1
    ensures !HasLine(old(board[..]), PlayerO) && HasLine(old(board[..]), PlayerX) ==> result == -1
    ensures !HasLine(old(board[..]), PlayerO) && !HasLine(old(board[..]), PlayerX) ==>
              (IsFull(old(board[..])) ==> result == 0)
    ensures FailSoft(result, MinimaxValue(old(board[..]), maximizing), alpha, beta)
    ensures alpha < -1 && 1 < beta ==> result == MinimaxValue(old(board[..]), maximizing)
    decreases EmptyCount(board[..]), 2
  {
    CheckWinMeansLine(board[..], PlayerO);
    CheckWinMeansLine(board[..], PlayerX);
    if CheckWin(board[..], PlayerO) {
      return 1;
    }
    if CheckWin(board[..], PlayerX) {
      return -1;
    }
    var tie := CheckTie(board);
    if tie {
      return 0;
    }
    result := ScanMoves(board, alpha, beta, maximizing);
  }

  /** The scan of a board nobody has won and that is not full. Each free cell
      in turn gets the mover's mark, is searched with the window carried
      down and the flag flipped, and gets its label back; the running best
      result and the window follow each child, and the scan stops once
      beta <= alpha. */
  method ScanMoves(board: array<char>, alpha: int, beta: int, maximizing: bool) returns (maxEval: int)
    requires board.Length == BoardSize && WellFormed(board[..])
    requires alpha < beta
    requires !IsFull(board[..])
    modifies board
    ensures board[..] == old(board[..])
    ensures -1 <= maxEval <= 1
    ensures FailSoft(maxEval, FoldChildren(old(board[..]), maximizing, 0, Worst(maximizing)), alpha, beta)
    decreases EmptyCount(board[..]), 1
  {
    ghost var b := board[..];
    ghost var start := Worst(maximizing);
    assert IsMoveValid(b, FreeCell(b));
    var player: char;
    if maximizing {
      maxEval, player := LowSentinel, PlayerO;
    } else {
      maxEval, player := HighSentinel, PlayerX;
    }
    // the game value of the children seen so far, without pruning
    ghost var value := maxEval;
    var lo, hi := alpha, beta;
    var i := 0;
    while i < BoardSize
      invariant 0 <= i <= BoardSize
      invariant board[..] == b
      invariant player == Mover(maximizing)
      invariant Window(maximizing, maxEval, value, lo, hi, alpha, beta)
      invariant FoldChildren(b, maximizing, 0, start) == FoldChildren(b, maximizing, i, value)
    {
      if IsMoveValid(board[..], i) {
        var eval := TryMove(board, i, player, lo, hi, maximizing);
        ghost var child := ChildValue(b, maximizing, i);
        WindowStep(maximizing, maxEval, value, lo, hi, alpha, beta, eval, child);
        value := if maximizing then Max(value, child) else Min(value, child);
        if maximizing {
          maxEval := Max(eval, maxEval);
          lo := Max(lo, maxEval);
        } else {
          maxEval := Min(eval, maxEval);
          hi := Min(hi, maxEval);
        }
      }
      if hi <= lo {
        return;
      }
      i := i + 1;
    }
    WindowExit(maximizing, maxEval, value, lo, hi, alpha, beta);
  }

  /** One child of a node: the mover's mark goes on the free cell i, the
      position is searched with the window carried down and the flag
      flipped, and the cell gets its label back. */
  method TryMove(board: array<char>, i: nat, player: char, lo: int, hi: int, maximizing: bool)
    returns (eval: int)
    requires board.Length == BoardSize && WellFormed(board[..])
    requires IsMoveValid(board[..], i) && player == Mover(maximizing)
    requires lo < hi
    modifies board
    ensures board[..] == old(board[..])
    ensures -1 <= eval <= 1
    ensures FailSoft(eval, ChildValue(old(board[..]), maximizing, i), lo, hi)
    decreases EmptyCount(board[..]), 0
  {
    ghost var b := board[..];
    EmptyCountAfterPlace(b, i, player);
    PlaceThenRestore(b, i, player);
    board[i] := player;
    eval := Minimax(board, lo, hi, !maximizing);
    board[i] := Label(i);
  }

  // ---------------------------------------------------------------------
  // The root driver

  /** What claiming the free cell i is worth to O, X moving next. */
  function MoveValue(b: Board, i: nat): (v: int)
    requires IsMoveValid(b, i)
    ensures -1 <= v <= 1
  {
    ChildValue(b, true, i)
  }

  /** k is the move the computer should take: a free cell whose value for O
      no other free cell beats, and the lowest such cell. */
  ghost predicate IsFirstBestMove(b: Board, k: int) {
    && IsMoveValid(b, k)
    && (forall j :: 0 <= j < BoardSize && IsMoveValid(b, j) ==> MoveValue(b, j) <= MoveValue(b, k))
    && (forall j :: 0 <= j < k && IsMoveValid(b, j) ==> MoveValue(b, j) < MoveValue(b, k))
  }

  /** The computer's "hard" move: O is tried on each free cell in ascending
      order, searched with the window (RootAlpha, RootBeta), and the first
      cell with a strictly greater value is kept; NoMove when no cell is
      free. The board is the same afterwards. */
  method GetComputerMoveHard(board: array<char>) returns (bestMove: int)
    requires board.Length == BoardSize && WellFormed(board[..])
    modifies board
    ensures board[..] == old(board[..])
    ensures bestMove == NoMove <==> forall j :: 0 <= j < BoardSize ==> !IsMoveValid(old(board[..]), j)
    ensures bestMove != NoMove ==> IsFirstBestMove(old(board[..]), bestMove)
  {
    ghost var b := board[..];
    bestMove := NoMove;
    var maxEval := LowSentinel;
    for i := 0 to BoardSize
      invariant board[..] == b
      invariant bestMove == NoMove <==> forall j :: 0 <= j < i ==> !IsMoveValid(b, j)
      invariant bestMove == NoMove ==> maxEval == LowSentinel
      invariant bestMove != NoMove ==>
                  0 <= bestMove < i && IsMoveValid(b, bestMove) && maxEval == MoveValue(b, bestMove)
      invariant bestMove != NoMove ==>
                  forall j :: 0 <= j < i && IsMoveValid(b, j) ==> MoveValue(b, j) <= maxEval
      invariant bestMove != NoMove ==>
                  forall j :: 0 <= j < bestMove && IsMoveValid(b, j) ==> MoveValue(b, j) < maxEval
    {
      if IsMoveValid(board[..], i) {
        var eval := TryMove(board, i, PlayerO, RootAlpha, RootBeta, true);
        if eval > maxEval {
          maxEval := eval;
          bestMove := i;
        }
      }
    }
  }

  /** Two moves that both satisfy IsFirstBestMove are the same cell: the
      choice is determined by the board. */
  lemma FirstBestMoveIsUnique(b: Board, k1: int, k2: int)
    requires IsFirstBestMove(b, k1) && IsFirstBestMove(b, k2)
    ensures k1 == k2
  {
  }

  /** When O can complete a line at once, the chosen move is a win for O. */
  lemma FirstBestMoveTakesWin(b: Board, k: int, j: int)
    requires IsFirstBestMove(b, k)
    requires IsMoveValid(b, j) && HasLine(b[j := PlayerO], PlayerO)
    ensures MoveValue(b, k) == 1
  {
    assert MinimaxValue(b[j := PlayerO], false) == 1;
    assert MoveValue(b, j) == ChildValue(b, true, j) == 1;
  }

  /** X X 3 / O O 6 / 7 8 9 with O to move. */
  function ForkBoard(): Board {
    ['X', 'X', '3', 'O', 'O', '6', '7', '8', '9']
  }

  /** On ForkBoard, O wins at once on cell 5, but cell 2 wins as well: it
      threatens both row 3-4-5 and diagonal 2-4-6, and X can block only one.
      The strict comparison keeps the lowest best cell, so the search picks
      cell 2. */
  lemma ForkBoardPicksCellTwo()
    ensures MoveValue(ForkBoard(), 5) == 1
    ensures IsFirstBestMove(ForkBoard(), 2)
  {
    var b := ForkBoard();
    assert HoldsLine(b[5 := PlayerO], 1, PlayerO);
    var b2: Board := b[2 := PlayerO];
    assert !HasLine(b2, PlayerO) by {
      forall k | 0 <= k < 8 ensures !HoldsLine(b2, k, PlayerO) {}
    }
    assert !HasLine(b2, PlayerX) by {
      forall k | 0 <= k < 8 ensures !HoldsLine(b2, k, PlayerX) {}
    }
    assert !IsMark(b2[5]);
    // whichever cell X takes, O completes the other threat
    forall j | 0 <= j < BoardSize && IsMoveValid(b2, j)
      ensures ChildValue(b2, false, j) == 1
    {
      var b3 := b2[j := PlayerX];
      var w := if j == 5 then 6 else 5;
      assert IsMoveValid(b3, w);
      assert HoldsLine(b3[w := PlayerO], if j == 5 then 7 else 1, PlayerO);
      assert !HasLine(b3, PlayerO) by {
        forall k | 0 <= k < 8 ensures !HoldsLine(b3, k, PlayerO) {}
      }
      assert !HasLine(b3, PlayerX) by {
        forall k | 0 <= k < 8 ensures !HoldsLine(b3, k, PlayerX) {}
      }
      assert !IsMark(b3[w]);
      MinimaxValueIsBestChild(b3, true);
      assert ChildValue(b3, true, w) == 1;
    }
    MinimaxValueIsBestChild(b2, false);
  }

  /** The computer's move: the search when the difficulty is hard (2) and it
      is not the first turn; otherwise the random move, which is chosen
      outside this model and passed in as `easyMove`. */
  method GetComputerMove(board: array<char>, difficulty: int, turn: int, easyMove: int) returns (move: int)
    requires board.Length == BoardSize && WellFormed(board[..])
    modifies board
    ensures board[..] == old(board[..])
    ensures difficulty == 2 && turn != 1 ==>
              && (move == NoMove <==> forall j :: 0 <= j < BoardSize ==> !IsMoveValid(old(board[..]), j))
              && (move != NoMove ==> IsFirstBestMove(old(board[..]), move))
    ensures !(difficulty == 2 && turn != 1) ==> move == easyMove
  {
    if difficulty == 2 && turn != 1 {
      move := GetComputerMoveHard(board);
    } else {
      move := easyMove;
    }
  }
}
