/**
 * Tic-tac-toe rules and minimax (week0/tictactoe/tictactoe.py).
 *
 * The board is a value: no operation of the source mutates its argument
 * (`result` deep-copies), so boards are `seq<seq<Cell>>` and the rules are
 * pure functions.  The source computes those rules with counting loops;
 * each loop is a method named after the source function and proved equal
 * to the function that specifies it.
 */
module TicTacToe {
  import opened Optional

  datatype Mark = X | O

  /** A cell holds a mark or is EMPTY (Python's `None`). */
  type Cell = Option<Mark>
  type Board = seq<seq<Cell>>
  type Move = (int, int)

  /** Stand-ins for `-math.inf` and `math.inf`: below and above every utility. */
  const NegInf := -2
  const PosInf := 2

  predicate IsBoard(b: Board)
  {
    |b| == 3 && forall i | 0 <= i < 3 :: |b[i]| == 3
  }

  function InitialState(): (b: Board)
    ensures IsBoard(b)
    ensures forall i, j | 0 <= i < 3 && 0 <= j < 3 :: b[i][j] == None
  {
    [[None, None, None], [None, None, None], [None, None, None]]
  }

  // ---------------------------------------------------------------------
  // Lines and the winner

  predicate FillsRow(b: Board, m: Mark, i: int)
    requires IsBoard(b) && 0 <= i < 3
  {
    forall j | 0 <= j < 3 :: b[i][j] == Some(m)
  }

  predicate FillsColumn(b: Board, m: Mark, j: int)
    requires IsBoard(b) && 0 <= j < 3
  {
    forall i | 0 <= i < 3 :: b[i][j] == Some(m)
  }

  predicate FillsDiagonal(b: Board, m: Mark)
    requires IsBoard(b)
  {
    forall i | 0 <= i < 3 :: b[i][i] == Some(m)
  }

  predicate FillsAntiDiagonal(b: Board, m: Mark)
    requires IsBoard(b)
  {
    forall i | 0 <= i < 3 :: b[i][2 - i] == Some(m)
  }

  /** `m` fills some row, column, the main diagonal or the anti-diagonal. */
  predicate HasLine(b: Board, m: Mark)
    requires IsBoard(b)
  {
    || (exists i | 0 <= i < 3 :: FillsRow(b, m, i))
    || (exists j | 0 <= j < 3 :: FillsColumn(b, m, j))
    || FillsDiagonal(b, m)
    || FillsAntiDiagonal(b, m)
  }

  /** X is checked first, so a board with lines for both players is X's. */
  function WinnerOf(b: Board): Option<Mark>
    requires IsBoard(b)
  {
    if HasLine(b, X) then Some(X) else if HasLine(b, O) then Some(O) else None
  }

  predicate IsFull(b: Board)
    requires IsBoard(b)
  {
    forall i, j | 0 <= i < 3 && 0 <= j < 3 :: b[i][j] != None
  }

  predicate IsTerminal(b: Board)
    requires IsBoard(b)
  {
    WinnerOf(b) != None || IsFull(b)
  }

  function EmptyCells(b: Board): set<Move>
    requires IsBoard(b)
  {
    set i, j | 0 <= i < 3 && 0 <= j < 3 && b[i][j] == None :: (i, j)
  }

  lemma EmptyCellsOfFull(b: Board)
    requires IsBoard(b)
    ensures IsFull(b) <==> EmptyCells(b) == {}
  {
    if !IsFull(b) {
      var i, j :| 0 <= i < 3 && 0 <= j < 3 && b[i][j] == None;
      assert (i, j) in EmptyCells(b);
    }
  }

  // ---------------------------------------------------------------------
  // Counting marks, row by row, as the source's loops do

  function CountRow(row: seq<Cell>, m: Mark): nat
  {
    if row == [] then 0
    else CountRow(row[..|row| - 1], m) + (if row[|row| - 1] == Some(m) then 1 else 0)
  }

  function CountMarks(rows: seq<seq<Cell>>, m: Mark): nat
  {
    if rows == [] then 0
    else CountMarks(rows[..|rows| - 1], m) + CountRow(rows[|rows| - 1], m)
  }

  // ---------------------------------------------------------------------
  // Whose turn, the legal moves, and applying a move

  /**
   * The player to move: nobody on a finished board, otherwise O exactly
   * when X has more marks than O.  The source tests for the initial board
   * first; `Player` keeps that test and `InitialStateIsXToMove` shows it
   * agrees with this definition.
   */
  function Turn(b: Board): (p: Option<Mark>)
    requires IsBoard(b)
    ensures p == None <==> IsTerminal(b)
  {
    if IsTerminal(b) then None
    else if CountMarks(b, X) > CountMarks(b, O) then Some(O)
    else Some(X)
  }

  lemma InitialStateInPlay()
    ensures !IsTerminal(InitialState())
  {
    var b := InitialState();
    forall m: Mark
      ensures !HasLine(b, m)
    {
      forall i | 0 <= i < 3
        ensures !FillsRow(b, m, i) && !FillsColumn(b, m, i)
      {
        assert b[i][0] == None && b[0][i] == None;
      }
      assert b[0][0] == None && b[0][2] == None;
    }
    assert b[0][0] == None;
  }

  /**
   * The board after the player to move puts a mark on the empty cell `m`;
   * one empty cell fewer, which is what makes the game tree finite.
   */
  function Place(b: Board, m: Move): (r: Board)
    requires IsBoard(b) && !IsTerminal(b) && m in EmptyCells(b)
    ensures IsBoard(r)
    ensures |EmptyCells(r)| == |EmptyCells(b)| - 1
  {
    var r := b[m.0 := b[m.0][m.1 := Turn(b)]];
    assert EmptyCells(r) == EmptyCells(b) - {m};
    r
  }

  /** Place writes the mover's mark on `m` and leaves every other cell as it was. */
  lemma PlaceCells(b: Board, m: Move)
    requires IsBoard(b) && !IsTerminal(b) && m in EmptyCells(b)
    ensures Turn(b) != None && Place(b, m)[m.0][m.1] == Turn(b)
    ensures forall i, j | 0 <= i < 3 && 0 <= j < 3 && (i, j) != m :: Place(b, m)[i][j] == b[i][j]
    ensures EmptyCells(Place(b, m)) == EmptyCells(b) - {m}
  {
    var r := Place(b, m);
    assert EmptyCells(r) == EmptyCells(b) - {m};
  }

  datatype MoveOutcome = Moved(board: Board) | InvalidMove

  /**
   * `result(board, action)`: a move outside `actions(board)` raises (on a
   * finished board `actions` is `None` and the membership test raises too);
   * otherwise a new board with the mover's mark on `m`.  The argument is a
   * value and so is never changed.
   */
  function Result(b: Board, m: Move): (r: MoveOutcome)
    requires IsBoard(b)
    ensures r.Moved? <==> !IsTerminal(b) && m in EmptyCells(b)
    ensures r.Moved? ==> IsBoard(r.board) && Turn(b) != None && r.board[m.0][m.1] == Turn(b)
    ensures r.Moved? ==> forall i, j | 0 <= i < 3 && 0 <= j < 3 && (i, j) != m :: r.board[i][j] == b[i][j]
  {
    if !IsTerminal(b) && m in EmptyCells(b) then
      PlaceCells(b, m);
      Moved(Place(b, m))
    else InvalidMove
  }

  /** 1 if X has won, -1 if O has won, 0 otherwise. */
  function Utility(b: Board): (u: int)
    requires IsBoard(b)
    ensures u == 1 <==> WinnerOf(b) == Some(X)
    ensures u == -1 <==> WinnerOf(b) == Some(O)
    ensures u == 0 <==> WinnerOf(b) == None
  {
    match WinnerOf(b)
    case Some(X) => 1
    case Some(O) => -1
    case None => 0
  }

  // ---------------------------------------------------------------------
  // Game values.  Every utility is -1, 0 or 1, so the maximum over the
  // children is 1 if some child is worth 1, else 0 if some child is worth 0,
  // else -1 (a board that is not terminal has at least one empty cell).

  function MaxValue(b: Board): (v: int)
    requires IsBoard(b)
    ensures -1 <= v <= 1
    decreases |EmptyCells(b)|, 1
  {
    if IsTerminal(b) then Utility(b)
    else if exists m | m in EmptyCells(b) :: ChildValue(b, m, true) == 1 then 1
    else if exists m | m in EmptyCells(b) :: ChildValue(b, m, true) == 0 then 0
    else -1
  }

  function MinValue(b: Board): (v: int)
    requires IsBoard(b)
    ensures -1 <= v <= 1
    decreases |EmptyCells(b)|, 1
  {
    if IsTerminal(b) then Utility(b)
    else if exists m | m in EmptyCells(b) :: ChildValue(b, m, false) == -1 then -1
    else if exists m | m in EmptyCells(b) :: ChildValue(b, m, false) == 0 then 0
    else 1
  }

  /**
   * The value a move to `m` gets in `minimax`: the opponent's best reply,
   * `min_value(result(board, m))` for X and `max_value(result(board, m))` for O.
   */
  function ChildValue(b: Board, m: Move, maximise: bool): (v: int)
    requires IsBoard(b) && !IsTerminal(b) && m in EmptyCells(b)
    ensures -1 <= v <= 1
    decreases |EmptyCells(b)|, 0
  {
    if maximise then MinValue(Place(b, m)) else MaxValue(Place(b, m))
  }

  /** On a board still in play, MaxValue is the largest value of a child for the minimiser. */
  lemma MaxValueIsBestChild(b: Board)
    requires IsBoard(b) && !IsTerminal(b)
    ensures forall m | m in EmptyCells(b) :: ChildValue(b, m, true) <= MaxValue(b)
    ensures exists m | m in EmptyCells(b) :: ChildValue(b, m, true) == MaxValue(b)
  {
    EmptyCellsOfFull(b);
    var m :| m in EmptyCells(b);
    if MaxValue(b) == -1 {
      assert ChildValue(b, m, true) == -1;
    }
  }

  /** On a board still in play, MinValue is the smallest value of a child for the maximiser. */
  lemma MinValueIsBestChild(b: Board)
    requires IsBoard(b) && !IsTerminal(b)
    ensures forall m | m in EmptyCells(b) :: ChildValue(b, m, false) >= MinValue(b)
    ensures exists m | m in EmptyCells(b) :: ChildValue(b, m, false) == MinValue(b)
  {
    EmptyCellsOfFull(b);
    var m :| m in EmptyCells(b);
    if MinValue(b) == 1 {
      assert ChildValue(b, m, false) == 1;
    }
  }

  /** A value that some child reaches and no child exceeds is MaxValue. */
  lemma MaxValueFromBounds(b: Board, v: int, arg: Move)
    requires IsBoard(b) && !IsTerminal(b) && arg in EmptyCells(b)
    requires ChildValue(b, arg, true) == v
    requires forall m | m in EmptyCells(b) :: ChildValue(b, m, true) <= v
    ensures v == MaxValue(b)
  {
    MaxValueIsBestChild(b);
  }

  /** A value that some child reaches and no child goes below is MinValue. */
  lemma MinValueFromBounds(b: Board, v: int, arg: Move)
    requires IsBoard(b) && !IsTerminal(b) && arg in EmptyCells(b)
    requires ChildValue(b, arg, false) == v
    requires forall m | m in EmptyCells(b) :: ChildValue(b, m, false) >= v
    ensures v == MinValue(b)
  {
    MinValueIsBestChild(b);
  }

  // ---------------------------------------------------------------------
  // Turn parity

  /** X has as many marks as O, or one more: true of every board reached by play. */
  predicate Balanced(b: Board)
  {
    CountMarks(b, X) == CountMarks(b, O) || CountMarks(b, X) == CountMarks(b, O) + 1
  }

  lemma {:induction false} CountRowUpdate(row: seq<Cell>, k: int, c: Cell, m: Mark)
    requires 0 <= k < |row| && row[k] == None
    ensures CountRow(row[k := c], m) == CountRow(row, m) + (if c == Some(m) then 1 else 0)
  {
    var r := row[k := c];
    if k < |row| - 1 {
      assert r[..|r| - 1] == row[..|row| - 1][k := c];
      CountRowUpdate(row[..|row| - 1], k, c, m);
    } else {
      assert r[..|r| - 1] == row[..|row| - 1];
    }
  }

  lemma {:induction false} CountMarksUpdate(rows: seq<seq<Cell>>, i: int, j: int, c: Cell, m: Mark)
    requires 0 <= i < |rows| && 0 <= j < |rows[i]| && rows[i][j] == None
    ensures CountMarks(rows[i := rows[i][j := c]], m) == CountMarks(rows, m) + (if c == Some(m) then 1 else 0)
  {
    var r := rows[i := rows[i][j := c]];
    if i < |rows| - 1 {
      assert r[..|r| - 1] == rows[..|rows| - 1][i := rows[i][j := c]];
      CountMarksUpdate(rows[..|rows| - 1], i, j, c, m);
    } else {
      assert r[..|r| - 1] == rows[..|rows| - 1];
      CountRowUpdate(rows[i], j, c, m);
    }
  }

  lemma {:induction false} CountRowOfEmpty(row: seq<Cell>, m: Mark)
    requires forall j | 0 <= j < |row| :: row[j] == None
    ensures CountRow(row, m) == 0
  {
    if row != [] {
      CountRowOfEmpty(row[..|row| - 1], m);
    }
  }

  lemma {:induction false} CountMarksOfEmpty(rows: seq<seq<Cell>>, m: Mark)
    requires forall i, j | 0 <= i < |rows| && 0 <= j < |rows[i]| :: rows[i][j] == None
    ensures CountMarks(rows, m) == 0
  {
    if rows != [] {
      CountMarksOfEmpty(rows[..|rows| - 1], m);
      CountRowOfEmpty(rows[|rows| - 1], m);
    }
  }

  lemma InitialStateCounts()
    ensures CountMarks(InitialState(), X) == 0 && CountMarks(InitialState(), O) == 0
  {
    CountMarksOfEmpty(InitialState(), X);
    CountMarksOfEmpty(InitialState(), O);
  }

  /**
   * A move keeps the board balanced, and on a board still in play after the
   * move the turn has passed to the other player.
   */
  lemma TurnAlternates(b: Board, m: Move)
    requires IsBoard(b) && !IsTerminal(b) && m in EmptyCells(b) && Balanced(b)
    ensures Balanced(Place(b, m))
    ensures !IsTerminal(Place(b, m)) ==> Turn(Place(b, m)) != Turn(b)
  {
    var r := Place(b, m);
    assert r == b[m.0 := b[m.0][m.1 := Turn(b)]];
    CountMarksUpdate(b, m.0, m.1, Turn(b), X);
    CountMarksUpdate(b, m.0, m.1, Turn(b), O);
    if b == InitialState() {
      InitialStateCounts();
    }
    assert r[m.0][m.1] != None;
    assert r != InitialState();
  }

  lemma InitialStateIsXToMove()
    ensures !IsTerminal(InitialState()) && Turn(InitialState()) == Some(X)
    ensures forall i, j | 0 <= i < 3 && 0 <= j < 3 :: (i, j) in EmptyCells(InitialState())
    ensures Balanced(InitialState())
  {
    InitialStateInPlay();
    InitialStateCounts();
  }

  // ---------------------------------------------------------------------
  // The source's loops

  /** `check_row`: some row holds three of `m`. */
  method CheckRow(b: Board, m: Mark) returns (r: bool)
    requires IsBoard(b)
    ensures r <==> exists i | 0 <= i < 3 :: FillsRow(b, m, i)
  {
    for i := 0 to 3
      invariant forall i' | 0 <= i' < i :: !FillsRow(b, m, i')
    {
      var count := 0;
      for j := 0 to 3
        invariant count <= j
        invariant count == j <==> forall k | 0 <= k < j :: b[i][k] == Some(m)
      {
        if b[i][j] == Some(m) {
          count := count + 1;
        }
      }
      if count == 3 {
        assert FillsRow(b, m, i);
        return true;
      }
    }
    return false;
  }

  /** `check_column`: some column holds three of `m`. */
  method CheckColumn(b: Board, m: Mark) returns (r: bool)
    requires IsBoard(b)
    ensures r <==> exists j | 0 <= j < 3 :: FillsColumn(b, m, j)
  {
    for i := 0 to 3
      invariant forall j' | 0 <= j' < i :: !FillsColumn(b, m, j')
    {
      var count := 0;
      for j := 0 to 3
        invariant count <= j
        invariant count == j <==> forall k | 0 <= k < j :: b[k][i] == Some(m)
      {
        if b[j][i] == Some(m) {
          count := count + 1;
        }
      }
      if count == 3 {
        assert FillsColumn(b, m, i);
        return true;
      }
    }
    return false;
  }

  /** `check_dialouge`: the main diagonal holds three of `m`. */
  method CheckDiagonal(b: Board, m: Mark) returns (r: bool)
    requires IsBoard(b)
    ensures r <==> FillsDiagonal(b, m)
  {
    var count := 0;
    for i := 0 to 3
      invariant count <= i
      invariant count == i <==> forall k | 0 <= k < i :: b[k][k] == Some(m)
    {
      if b[i][i] == Some(m) {
        count := count + 1;
      }
    }
    r := count == 3;
  }

  /** `check_dialouge_reverse`: walks i = 2, 1, 0 over the cells (i, 2 - i). */
  method CheckAntiDiagonal(b: Board, m: Mark) returns (r: bool)
    requires IsBoard(b)
    ensures r <==> FillsAntiDiagonal(b, m)
  {
    var count := 0;
    var i := 2;
    while i >= 0
      invariant -1 <= i <= 2
      invariant count <= 2 - i
      invariant count == 2 - i <==> forall k | i < k < 3 :: b[k][2 - k] == Some(m)
    {
      if b[i][2 - i] == Some(m) {
        count := count + 1;
      }
      i := i - 1;
    }
    r := count == 3;
  }

  /** `winner`: X if X has a line, else O if O has one, else None. */
  method Winner(b: Board) returns (w: Option<Mark>)
    requires IsBoard(b)
    ensures w == WinnerOf(b)
  {
    var line := HasLineByChecks(b, X);
    if line {
      return Some(X);
    }
    line := HasLineByChecks(b, O);
    if line {
      return Some(O);
    }
    return None;
  }

  /** The four checks joined by a short-circuiting `or`, as `winner` writes them. */
  method HasLineByChecks(b: Board, m: Mark) returns (line: bool)
    requires IsBoard(b)
    ensures line == HasLine(b, m)
  {
    line := CheckRow(b, m);
    if !line {
      line := CheckColumn(b, m);
    }
    if !line {
      line := CheckDiagonal(b, m);
    }
    if !line {
      line := CheckAntiDiagonal(b, m);
    }
  }

  /** `terminal`: someone has won, or no cell is EMPTY. */
  method Terminal(b: Board) returns (t: bool)
    requires IsBoard(b)
    ensures t == IsTerminal(b)
  {
    var w := Winner(b);
    if w == Some(X) || w == Some(O) {
      return true;
    }
    for i := 0 to 3
      invariant forall i', j | 0 <= i' < i && 0 <= j < 3 :: b[i'][j] != None
    {
      for j := 0 to 3
        invariant forall j' | 0 <= j' < j :: b[i][j'] != None
      {
        if b[i][j] == None {
          return false;
        }
      }
    }
    return true;
  }

  /** `player`: X on the initial board, None when the game is over, else by counting marks. */
  method Player(b: Board) returns (p: Option<Mark>)
    requires IsBoard(b)
    ensures p == Turn(b)
  {
    if b == InitialState() {
      InitialStateIsXToMove();
      return Some(X);
    }
    var t := Terminal(b);
    if t {
      return None;
    }
    var numberX, numberO := 0, 0;
    for i := 0 to 3
      invariant numberX == CountMarks(b[..i], X) && numberO == CountMarks(b[..i], O)
    {
      for j := 0 to 3
        invariant numberX == CountMarks(b[..i], X) + CountRow(b[i][..j], X)
        invariant numberO == CountMarks(b[..i], O) + CountRow(b[i][..j], O)
      {
        assert b[i][..j + 1][..j] == b[i][..j];
        if b[i][j] == Some(X) {
          numberX := numberX + 1;
        } else if b[i][j] == Some(O) {
          numberO := numberO + 1;
        }
      }
      assert b[i][..3] == b[i];
      assert b[..i + 1][..i] == b[..i];
    }
    assert b[..3] == b;
    if numberX > numberO {
      p := Some(O);
    } else {
      p := Some(X);
    }
  }

  /** `actions`: None on a finished board, otherwise every EMPTY cell. */
  method Actions(b: Board) returns (a: Option<set<Move>>)
    requires IsBoard(b)
    ensures IsTerminal(b) ==> a == None
    ensures !IsTerminal(b) ==> a == Some(EmptyCells(b))
  {
    var t := Terminal(b);
    if t {
      return None;
    }
    var moves: set<Move> := {};
    for i := 0 to 3
      invariant moves == set i', j' | 0 <= i' < i && 0 <= j' < 3 && b[i'][j'] == None :: (i', j')
    {
      for j := 0 to 3
        invariant moves == (set i', j' | 0 <= i' < i && 0 <= j' < 3 && b[i'][j'] == None :: (i', j'))
                         + (set j' | 0 <= j' < j && b[i][j'] == None :: (i, j'))
      {
        if b[i][j] == None {
          moves := moves + {(i, j)};
        }
      }
    }
    return Some(moves);
  }

  // ---------------------------------------------------------------------
  // Minimax

  /** `minimax_max_value`: a running maximum over the children's MinValue. */
  method MinimaxMaxValue(b: Board) returns (v: int)
    requires IsBoard(b)
    ensures v == MaxValue(b)
    decreases |EmptyCells(b)|, 0
  {
    v := NegInf;
    var t := Terminal(b);
    if t {
      return Utility(b);
    }
    var acts := Actions(b);
    var rest := acts.value;
    ghost var arg: Move := (0, 0);
    while rest != {}
      invariant rest <= EmptyCells(b)
      invariant rest == EmptyCells(b) ==> v == NegInf
      invariant forall m | m in EmptyCells(b) - rest :: ChildValue(b, m, true) <= v
      invariant rest != EmptyCells(b) ==> arg in EmptyCells(b) && ChildValue(b, arg, true) == v
      decreases rest
    {
      var m :| m in rest;
      var w := MinimaxMinValue(Place(b, m));
      if w > v {
        v, arg := w, m;
      }
      rest := rest - {m};
    }
    EmptyCellsOfFull(b);
    MaxValueFromBounds(b, v, arg);
  }

  /** `minimax_min_value`: a running minimum over the children's MaxValue. */
  method MinimaxMinValue(b: Board) returns (v: int)
    requires IsBoard(b)
    ensures v == MinValue(b)
    decreases |EmptyCells(b)|, 0
  {
    v := PosInf;
    var t := Terminal(b);
    if t {
      return Utility(b);
    }
    var acts := Actions(b);
    var rest := acts.value;
    ghost var arg: Move := (0, 0);
    while rest != {}
      invariant rest <= EmptyCells(b)
      invariant rest == EmptyCells(b) ==> v == PosInf
      invariant forall m | m in EmptyCells(b) - rest :: ChildValue(b, m, false) >= v
      invariant rest != EmptyCells(b) ==> arg in EmptyCells(b) && ChildValue(b, arg, false) == v
      decreases rest
    {
      var m :| m in rest;
      var w := MinimaxMaxValue(Place(b, m));
      if w < v {
        v, arg := w, m;
      }
      rest := rest - {m};
    }
    EmptyCellsOfFull(b);
    MinValueFromBounds(b, v, arg);
  }

  /** `minimax_min_value(result(board, action))` for X, `minimax_max_value(...)` for O. */
  method ScoreMove(b: Board, m: Move, maximise: bool) returns (v: int)
    requires IsBoard(b) && !IsTerminal(b) && m in EmptyCells(b)
    ensures v == ChildValue(b, m, maximise) && -1 <= v <= 1
  {
    if maximise {
      v := MinimaxMinValue(Place(b, m));
    } else {
      v := MinimaxMaxValue(Place(b, m));
    }
  }

  /** The (value, action) pairs for the moves of `moves`, in that order. */
  function Scored(b: Board, moves: seq<Move>, maximise: bool): seq<(int, Move)>
    requires IsBoard(b) && !IsTerminal(b)
    requires forall k | 0 <= k < |moves| :: moves[k] in EmptyCells(b)
    decreases |moves|
  {
    if moves == [] then []
    else
      var last := moves[|moves| - 1];
      Scored(b, moves[..|moves| - 1], maximise) + [(ChildValue(b, last, maximise), last)]
  }

  /** Entry `k` of `Scored` pairs `moves[k]` with its value. */
  lemma {:induction false} ScoredEntries(b: Board, moves: seq<Move>, maximise: bool)
    requires IsBoard(b) && !IsTerminal(b)
    requires forall k | 0 <= k < |moves| :: moves[k] in EmptyCells(b)
    ensures |Scored(b, moves, maximise)| == |moves|
    ensures forall k | 0 <= k < |moves| ::
      Scored(b, moves, maximise)[k] == (ChildValue(b, moves[k], maximise), moves[k])
    decreases |moves|
  {
    if moves != [] {
      var prefix, last := moves[..|moves| - 1], moves[|moves| - 1];
      ScoredEntries(b, prefix, maximise);
      var r := Scored(b, moves, maximise);
      assert r == Scored(b, prefix, maximise) + [(ChildValue(b, last, maximise), last)];
      forall k | 0 <= k < |moves|
        ensures r[k] == (ChildValue(b, moves[k], maximise), moves[k])
      {
        if k < |prefix| {
          assert moves[k] == prefix[k];
        }
      }
    }
  }

  /** Scoring a sequence that lists every empty cell scores every move. */
  lemma ScoredCovers(b: Board, moves: seq<Move>, maximise: bool)
    requires IsBoard(b) && !IsTerminal(b)
    requires forall k | 0 <= k < |moves| :: moves[k] in EmptyCells(b)
    requires forall m | m in EmptyCells(b) :: m in moves
    ensures |Scored(b, moves, maximise)| == |moves| > 0
    ensures forall k | 0 <= k < |moves| ::
      Scored(b, moves, maximise)[k].1 in EmptyCells(b) &&
      Scored(b, moves, maximise)[k].0 == ChildValue(b, Scored(b, moves, maximise)[k].1, maximise)
    ensures forall m | m in EmptyCells(b) :: exists k | 0 <= k < |moves| :: Scored(b, moves, maximise)[k].1 == m
  {
    EmptyCellsOfFull(b);
    ScoredEntries(b, moves, maximise);
    forall m | m in EmptyCells(b)
      ensures exists k | 0 <= k < |moves| :: Scored(b, moves, maximise)[k].1 == m
    {
      var k :| 0 <= k < |moves| && moves[k] == m;
      assert Scored(b, moves, maximise)[k].1 == m;
    }
  }

  /** The list `arr` of (value, action) pairs that `minimax` builds over `actions(board)`. */
  method ScoreActions(b: Board, maximise: bool) returns (arr: seq<(int, Move)>)
    requires IsBoard(b) && !IsTerminal(b)
    ensures |arr| > 0
    ensures forall k | 0 <= k < |arr| :: arr[k].1 in EmptyCells(b) && arr[k].0 == ChildValue(b, arr[k].1, maximise)
    ensures forall m | m in EmptyCells(b) :: exists k | 0 <= k < |arr| :: arr[k].1 == m
  {
    EmptyCellsOfFull(b);
    var acts := Actions(b);
    var rest := acts.value;
    ghost var empty := EmptyCells(b);
    ghost var moves: seq<Move> := [];
    arr := [];
    while rest != {}
      invariant rest <= empty
      invariant forall k | 0 <= k < |moves| :: moves[k] in empty
      invariant forall m | m in empty :: m in rest || m in moves
      invariant arr == Scored(b, moves, maximise)
      decreases rest
    {
      var m :| m in rest;
      var v := ScoreMove(b, m, maximise);
      arr := arr + [(v, m)];
      ghost var before := moves;
      moves := moves + [m];
      assert moves[..|moves| - 1] == before;
      rest := rest - {m};
    }
    ScoredCovers(b, moves, maximise);
  }

  /** The running `max` (for X) or `min` (for O) over the values in `arr`, from -inf or +inf. */
  method BestScore(arr: seq<(int, Move)>, maximise: bool) returns (best: int)
    requires |arr| > 0
    requires forall k | 0 <= k < |arr| :: NegInf < arr[k].0 < PosInf
    ensures exists k | 0 <= k < |arr| :: arr[k].0 == best
    ensures forall k | 0 <= k < |arr| :: if maximise then arr[k].0 <= best else arr[k].0 >= best
  {
    best := if maximise then NegInf else PosInf;
    for k := 0 to |arr|
      invariant forall k' | 0 <= k' < k :: if maximise then arr[k'].0 <= best else arr[k'].0 >= best
      invariant k == 0 ==> best == if maximise then NegInf else PosInf
      invariant k > 0 ==> exists k' | 0 <= k' < k :: arr[k'].0 == best
    {
      if maximise && arr[k].0 > best {
        best := arr[k].0;
      } else if !maximise && arr[k].0 < best {
        best := arr[k].0;
      }
    }
  }

  /** The first pair in `arr` that holds `best`. */
  method FirstWithScore(arr: seq<(int, Move)>, best: int) returns (k: nat)
    requires exists k | 0 <= k < |arr| :: arr[k].0 == best
    ensures k < |arr| && arr[k].0 == best
    ensures forall k' | 0 <= k' < k :: arr[k'].0 != best
  {
    k := 0;
    while arr[k].0 != best
      invariant 0 <= k < |arr|
      invariant exists k' | k <= k' < |arr| :: arr[k'].0 == best
      invariant forall k' | 0 <= k' < k :: arr[k'].0 != best
      decreases |arr| - k
    {
      k := k + 1;
    }
  }

  /**
   * `minimax`: None on a finished board; otherwise a legal move whose value
   * is the best for the player to move -- the largest MinValue of a child
   * when X moves, the smallest MaxValue when O moves.  Which of several
   * equally good moves is returned depends on set iteration order.
   */
  method Minimax(b: Board) returns (a: Option<Move>)
    requires IsBoard(b)
    ensures a == None <==> IsTerminal(b)
    ensures a.Some? ==> a.value in EmptyCells(b)
    ensures a.Some? && Turn(b) == Some(X) ==>
      MinValue(Place(b, a.value)) == MaxValue(b) &&
      forall m | m in EmptyCells(b) :: MinValue(Place(b, m)) <= MinValue(Place(b, a.value))
    ensures a.Some? && Turn(b) == Some(O) ==>
      MaxValue(Place(b, a.value)) == MinValue(b) &&
      forall m | m in EmptyCells(b) :: MaxValue(Place(b, m)) >= MaxValue(Place(b, a.value))
  {
    var t := Terminal(b);
    if t {
      return None;
    }
    var p := Player(b);
    var maximise := p == Some(X);
    var arr := ScoreActions(b, maximise);
    var best := BestScore(arr, maximise);
    var k := FirstWithScore(arr, best);
    a := Some(arr[k].1);
    assert forall m | m in EmptyCells(b) ::
      if maximise then ChildValue(b, m, maximise) <= best else ChildValue(b, m, maximise) >= best;
    if maximise {
      MaxValueFromBounds(b, best, arr[k].1);
    } else {
      MinValueFromBounds(b, best, arr[k].1);
    }
  }
}
