/**
 * The game state of Board.tsx and its reducer: the actions that resize or
 * restart the game, and a turn, which applies updateBoard and decides win,
 * tie and who moves next.
 */
module Game {
  import opened Tiles
  import opened Lines

  /** DEFAULT_SIZE: the side of the board of a new or reset game. */
  const DefaultSize: nat := 3

  /** The reducer's state: the board, whose turn it is, whether the game ended in a tie or a win, and how many moves were made. */
  datatype State = State(board: Grid, currPlayer: Player, isTie: bool, isWin: bool, turns: nat)

  /** The actions the reducer handles. */
  datatype Action = Decrement | Increment | Replay | Reset | Turn(row: int, col: int)

  /** A new game on a size-by-size board: INITIAL_GAME_STATE with its board replaced by createBoard(size). */
  function NewGame(size: nat): (s: State)
    ensures |s.board| == size && IsSquare(s.board)
    ensures forall i, j :: 0 <= i < size && 0 <= j < size ==> s.board[i][j] == Empty
    ensures s.currPlayer == P1 && !s.isTie && !s.isWin && s.turns == 0
  {
    State(EmptyGrid(size), P1, false, false, 0)
  }

  /** INITIAL_GAME_STATE: an empty 3-by-3 board, player 1 to move, no moves made. */
  function Initial(): (s: State)
    ensures |s.board| == DefaultSize && IsSquare(s.board)
    ensures forall i, j :: 0 <= i < DefaultSize && 0 <= j < DefaultSize ==> s.board[i][j] == Empty
    ensures s.currPlayer == P1 && !s.isTie && !s.isWin && s.turns == 0
  {
    NewGame(DefaultSize)
  }

  /**
   * The actions the reducer completes: createBoard(-1) raises a RangeError,
   * so a decrement needs a board of at least one row, and the turn's tile
   * must lie on the board.
   */
  predicate Allowed(s: State, a: Action) {
    match a
    case Decrement => |s.board| >= 1
    case Turn(row, col) => InBounds(s.board, row, col)
    case _ => true
  }

  /** The board is full after this move: `turns + 1 === Math.pow(newBoard.length, 2)`. */
  predicate IsBoardFull(s: State, newBoard: Grid) {
    s.turns + 1 == |newBoard| * |newBoard|
  }

  /** reducer: the state after `a`. */
  function Reduce(s: State, a: Action): State
    requires Allowed(s, a)
  {
    match a
    case Decrement => NewGame(|s.board| - 1)
    case Increment => NewGame(|s.board| + 1)
    case Replay => NewGame(|s.board|)
    case Reset => NewGame(DefaultSize)
    case Turn(row, col) =>
      var o := Update(s.board, row, col, s.currPlayer, |s.board|);
      var full := IsBoardFull(s, o.newBoard);
      State(
        o.newBoard,
        if o.isWin || full then s.currPlayer else s.currPlayer.Other(),
        !o.isWin && full,
        o.isWin,
        s.turns + 1)
  }

  /** Decrement, increment, replay and reset each start a new game, on a board of side n - 1, n + 1, n and 3. */
  lemma RestartSizes(s: State, a: Action)
    requires Allowed(s, a) && !a.Turn?
    ensures var r := Reduce(s, a);
      && r.turns == 0 && r.currPlayer == P1 && !r.isWin && !r.isTie
      && IsSquare(r.board) && CountMarks(r.board) == 0
      && |r.board| == match a
        case Decrement => |s.board| - 1
        case Increment => |s.board| + 1
        case Replay => |s.board|
        case Reset => DefaultSize
        case Turn(_, _) => 0
  {
    CountMarksEmpty(Reduce(s, a).board);
  }

  /**
   * A turn adds one to the move count and keeps the board's size; it ends in
   * a tie exactly when the board is full and the move did not win, so never
   * in both a win and a tie; and play passes to the other player exactly when
   * the move neither won nor filled the board.
   */
  lemma TurnOutcome(s: State, row: int, col: int)
    requires InBounds(s.board, row, col)
    ensures var r := Reduce(s, Turn(row, col));
      var full := s.turns + 1 == |s.board| * |s.board|;
      && r.turns == s.turns + 1
      && |r.board| == |s.board|
      && !(r.isTie && r.isWin)
      && (r.isTie <==> full && !r.isWin)
      && (r.currPlayer != s.currPlayer <==> !r.isWin && !full)
      && (r.currPlayer != s.currPlayer ==> r.currPlayer == s.currPlayer.Other())
  {
    UpdateChangesOnlyTarget(s.board, row, col, s.currPlayer, |s.board|);
  }

  /**
   * A turn wins exactly when, with the mover's mark placed, some axis through
   * the tile holds a run of the mover's marks as long as the board's side;
   * the winner then stays the current player.
   */
  lemma TurnWinIff(s: State, row: int, col: int)
    requires InBounds(s.board, row, col)
    ensures var r := Reduce(s, Turn(row, col));
      && (r.isWin <==> exists axis :: HasRun(Placed(s.board, row, col, s.currPlayer), axis, row, col, s.currPlayer, |s.board|))
      && (r.isWin ==> r.currPlayer == s.currPlayer)
  {
    UpdateWinIff(s.board, row, col, s.currPlayer, |s.board|);
  }

  /**
   * The state's invariant under play: a square board, as many moves counted
   * as marks on it, and never both a win and a tie.
   */
  predicate Valid(s: State) {
    IsSquare(s.board) && s.turns == CountMarks(s.board) && !(s.isTie && s.isWin)
  }

  /**
   * Turns on an empty tile while the game is neither won nor tied: the moves
   * the UI means to allow. `Tile` only gives the other tiles a CSS class and
   * still dispatches their clicks, so this is the assumption the lemmas about
   * legal play rest on, not something the reducer enforces.
   */
  predicate Legal(s: State, a: Action) {
    Allowed(s, a) && (a.Turn? ==> !s.isWin && !s.isTie && s.board[a.row][a.col] == Empty)
  }

  /** The initial state is valid. */
  lemma InitialValid()
    ensures Valid(Initial()) && |Initial().board| == DefaultSize
  {
    CountMarksEmpty(Initial().board);
  }

  /** Every legal action keeps the state valid. */
  lemma ReducePreservesValid(s: State, a: Action)
    requires Valid(s) && Legal(s, a)
    ensures Valid(Reduce(s, a))
  {
    if a.Turn? {
      TurnCountsMarks(s, a.row, a.col);
      TurnOutcome(s, a.row, a.col);
    } else {
      RestartSizes(s, a);
    }
  }

  /** A legal turn on a valid state puts exactly one more mark on the square board. */
  lemma TurnCountsMarks(s: State, row: int, col: int)
    requires Valid(s) && Legal(s, Turn(row, col))
    ensures var r := Reduce(s, Turn(row, col));
      IsSquare(r.board) && |r.board| == |s.board| && CountMarks(r.board) == s.turns + 1
  {
    var p := Placed(s.board, row, col, s.currPlayer);
    var b := Reduce(s, Turn(row, col)).board;
    UpdateChangesOnlyTarget(s.board, row, col, s.currPlayer, |s.board|);
    CountMarksPlace(s.board, row, col, Mark(s.currPlayer, false));
    CountMarksSame(b, p);
  }

  /**
   * With legal moves only, `turns + 1 === n * n` is the right test for a
   * full board: after a legal turn the game is tied exactly when every tile
   * is marked and the move did not win.
   */
  lemma FullMeansAllMarked(s: State, row: int, col: int)
    requires Valid(s) && Legal(s, Turn(row, col))
    ensures var r := Reduce(s, Turn(row, col));
      && (IsBoardFull(s, r.board) <==> AllMarked(r.board))
      && (r.isTie <==> AllMarked(r.board) && !r.isWin)
  {
    var r := Reduce(s, Turn(row, col));
    TurnCountsMarks(s, row, col);
    CountMarksBound(r.board);
    AreaOfRows(r.board, |r.board|);
  }
}
