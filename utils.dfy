/**
 * The board utilities of utils.ts on mutable boards: createBoard, copyBoard,
 * the four line scanners and updateBoard. Each method is proved to compute
 * what the corresponding function of module Lines states.
 */
module Utils {
  import opened Tiles
  import opened Lines

  /** The board an array holds, as a value. */
  ghost function Snapshot(board: array2<Cell>): (g: Grid)
    reads board
    ensures |g| == board.Length0
    ensures forall i :: 0 <= i < |g| ==> |g[i]| == board.Length1
    ensures forall i, j :: 0 <= i < board.Length0 && 0 <= j < board.Length1 ==> g[i][j] == board[i, j]
  {
    seq(board.Length0, i requires 0 <= i < board.Length0 reads board =>
      seq(board.Length1, j requires 0 <= j < board.Length1 reads board => board[i, j]))
  }

  lemma SnapshotIs(board: array2<Cell>, h: Grid)
    requires |h| == board.Length0
    requires forall i :: 0 <= i < |h| ==> |h[i]| == board.Length1
    requires forall i, j :: 0 <= i < board.Length0 && 0 <= j < board.Length1 ==> board[i, j] == h[i][j]
    ensures Snapshot(board) == h
  {
    var g := Snapshot(board);
    forall i | 0 <= i < |h| ensures g[i] == h[i] {
    }
  }

  /** The bounds-checked read `board[r]?.[c]?.[0] === v`: never indexes outside the array. */
  predicate Holds(board: array2<Cell>, r: int, c: int, v: Player)
    reads board
    ensures Holds(board, r, c, v) <==> HoldsValue(Snapshot(board), r, c, v)
  {
    0 <= r < board.Length0 && 0 <= c < board.Length1 && board[r, c].Mark? && board[r, c].player == v
  }

  /** createBoard: a new size-by-size board of empty tiles. */
  method CreateBoard(size: nat) returns (board: array2<Cell>)
    ensures fresh(board)
    ensures board.Length0 == size && board.Length1 == size
    ensures Snapshot(board) == EmptyGrid(size)
  {
    board := new Cell[size, size]((i, j) => Empty);
    SnapshotIs(board, EmptyGrid(size));
  }

  /** copyBoard: a new board, sharing no storage with the old one, holding the same tiles. */
  method CopyBoard(board: array2<Cell>) returns (copy: array2<Cell>)
    ensures fresh(copy)
    ensures copy.Length0 == board.Length0 && copy.Length1 == board.Length1
    ensures Snapshot(copy) == Snapshot(board)
  {
    copy := new Cell[board.Length0, board.Length1]((i, j) requires 0 <= i < board.Length0 && 0 <= j < board.Length1 reads board => board[i, j]);
    SnapshotIs(copy, Snapshot(board));
  }

  /**
   * One walk of a scanner, its while loop: starting at (r0, c0) with
   * `sequence0` tiles counted, while fewer than `depth` are counted and the
   * tile holds `value`, count it and step by (dr, dc). Returns the count and
   * the first tile not counted.
   */
  method Extend(board: array2<Cell>, r0: int, c0: int, dr: int, dc: int, value: Player, depth: int, sequence0: int)
      returns (sequence: int, r: int, c: int)
    requires 1 <= sequence0 <= Cap(depth) + 1
    ensures sequence - sequence0 == Walk(Snapshot(board), r0, c0, dr, dc, value, 0, Cap(depth) + 1 - sequence0)
    ensures r == r0 + (sequence - sequence0) * dr && c == c0 + (sequence - sequence0) * dc
  {
    ghost var g := Snapshot(board);
    ghost var room: nat := Cap(depth) + 1 - sequence0;
    sequence, r, c := sequence0, r0, c0;
    while sequence < depth && Holds(board, r, c, value)
      invariant sequence0 <= sequence <= sequence0 + room
      invariant r == r0 + (sequence - sequence0) * dr && c == c0 + (sequence - sequence0) * dc
      invariant Walk(g, r, c, dr, dc, value, sequence - sequence0, room) == Walk(g, r0, c0, dr, dc, value, 0, room)
      decreases depth - sequence
    {
      sequence := sequence + 1;
      r, c := r + dr, c + dc;
    }
  }

  /** The marking loop of checkHorizontal: flags `len` tiles of the row, rightward from the tile `lo` steps away, at column c0. */
  method MarkRow(board: array2<Cell>, row: int, col: int, ghost lo: int, len: int, c0: int)
    requires 0 <= len
    requires Flaggable(Snapshot(board), Horizontal, row, col, lo, lo + len - 1)
    requires c0 == col + lo
    modifies board
    ensures Snapshot(board) == FlagSegment(old(Snapshot(board)), Horizontal, row, col, lo, lo + len - 1)
  {
    ghost var g := Snapshot(board);
    var c := c0;
    for k := 0 to len
      invariant c == col + lo + k
      invariant forall i, j :: 0 <= i < board.Length0 && 0 <= j < board.Length1 ==>
        board[i, j] == if OnSegment(Horizontal, row, col, lo, lo + k - 1, i, j) then WithSequence(g[i][j]) else g[i][j]
    {
      OnSegmentAt(Horizontal, row, col, lo, lo + k - 1, lo + k);
      board[row, c] := board[row, c].(inSequence := true);
      c := c + 1;
    }
    SnapshotIs(board, FlagSegment(g, Horizontal, row, col, lo, lo + len - 1));
  }

  /** The marking loop of checkVertical: flags `len` tiles of the column, downward from the tile `lo` steps away, at row r0. */
  method MarkColumn(board: array2<Cell>, row: int, col: int, ghost lo: int, len: int, r0: int)
    requires 0 <= len
    requires Flaggable(Snapshot(board), Vertical, row, col, lo, lo + len - 1)
    requires r0 == row + lo
    modifies board
    ensures Snapshot(board) == FlagSegment(old(Snapshot(board)), Vertical, row, col, lo, lo + len - 1)
  {
    ghost var g := Snapshot(board);
    var r := r0;
    for k := 0 to len
      invariant r == row + lo + k
      invariant forall i, j :: 0 <= i < board.Length0 && 0 <= j < board.Length1 ==>
        board[i, j] == if OnSegment(Vertical, row, col, lo, lo + k - 1, i, j) then WithSequence(g[i][j]) else g[i][j]
    {
      OnSegmentAt(Vertical, row, col, lo, lo + k - 1, lo + k);
      board[r, col] := board[r, col].(inSequence := true);
      r := r + 1;
    }
    SnapshotIs(board, FlagSegment(g, Vertical, row, col, lo, lo + len - 1));
  }

  /** The marking loop of checkDiagonal: flags `len` tiles of the diagonal, up-left from its far end (r0, c0), the tile `lo + len - 1` steps away. */
  method MarkDiagonal(board: array2<Cell>, row: int, col: int, ghost lo: int, len: int, r0: int, c0: int)
    requires 0 <= len
    requires Flaggable(Snapshot(board), Diagonal, row, col, lo, lo + len - 1)
    requires r0 == row + lo + len - 1 && c0 == col + lo + len - 1
    modifies board
    ensures Snapshot(board) == FlagSegment(old(Snapshot(board)), Diagonal, row, col, lo, lo + len - 1)
  {
    ghost var g := Snapshot(board);
    var r, c := r0, c0;
    for k := 0 to len
      invariant r == row + lo + len - 1 - k && c == col + lo + len - 1 - k
      invariant forall i, j :: 0 <= i < board.Length0 && 0 <= j < board.Length1 ==>
        board[i, j] == if OnSegment(Diagonal, row, col, lo + len - k, lo + len - 1, i, j) then WithSequence(g[i][j]) else g[i][j]
    {
      OnSegmentAt(Diagonal, row, col, lo + len - k, lo + len - 1, lo + len - 1 - k);
      board[r, c] := board[r, c].(inSequence := true);
      r, c := r - 1, c - 1;
    }
    SnapshotIs(board, FlagSegment(g, Diagonal, row, col, lo, lo + len - 1));
  }

  /** The marking loop of checkAntiDiagonal: flags `len` tiles of the anti-diagonal, down-left from its far end (r0, c0), the tile `lo + len - 1` steps away. */
  method MarkAntiDiagonal(board: array2<Cell>, row: int, col: int, ghost lo: int, len: int, r0: int, c0: int)
    requires 0 <= len
    requires Flaggable(Snapshot(board), AntiDiagonal, row, col, lo, lo + len - 1)
    requires r0 == row - (lo + len - 1) && c0 == col + lo + len - 1
    modifies board
    ensures Snapshot(board) == FlagSegment(old(Snapshot(board)), AntiDiagonal, row, col, lo, lo + len - 1)
  {
    ghost var g := Snapshot(board);
    var r, c := r0, c0;
    for k := 0 to len
      invariant r == row - (lo + len - 1 - k) && c == col + lo + len - 1 - k
      invariant forall i, j :: 0 <= i < board.Length0 && 0 <= j < board.Length1 ==>
        board[i, j] == if OnSegment(AntiDiagonal, row, col, lo + len - k, lo + len - 1, i, j) then WithSequence(g[i][j]) else g[i][j]
    {
      OnSegmentAt(AntiDiagonal, row, col, lo + len - k, lo + len - 1, lo + len - 1 - k);
      board[r, c] := board[r, c].(inSequence := true);
      r, c := r + 1, c - 1;
    }
    SnapshotIs(board, FlagSegment(g, AntiDiagonal, row, col, lo, lo + len - 1));
  }

  /** checkHorizontal: counts the run of `value` through (row, col) leftward then rightward, and flags it when it reaches `depth`. */
  method CheckHorizontal(board: array2<Cell>, row: int, col: int, value: Player, depth: int) returns (found: bool)
    requires 0 <= row < board.Length0 && 0 <= col < board.Length1
    requires board[row, col].Mark?
    modifies board
    ensures found == Scan(old(Snapshot(board)), Horizontal, row, col, value, depth).found
    ensures Snapshot(board) == Scan(old(Snapshot(board)), Horizontal, row, col, value, depth).board
  {
    ghost var g := Snapshot(board);
    var sequence, r1, p1 := Extend(board, row, col - 1, 0, -1, value, depth, 1);
    assert Snapshot(board) == g;
    assert sequence - 1 == Behind(g, Horizontal, row, col, value, depth);
    // back onto the last tile the walk counted
    p1 := p1 + 1;
    var r2, p2;
    sequence, r2, p2 := Extend(board, row, col + 1, 0, 1, value, depth, sequence);
    assert Snapshot(board) == g;
    if sequence == depth {
      CompletesWindow(g, Horizontal, row, col, value, depth);
      ghost var lo := Start(g, Horizontal, row, col, value, depth);
      assert p1 == col + lo;
      WindowFlaggable(g, Horizontal, row, col, value, lo, depth);
      MarkRow(board, row, col, lo, depth, p1);
      return true;
    }
    return false;
  }

  /** checkVertical: counts the run of `value` through (row, col) upward then downward, and flags it when it reaches `depth`. */
  method CheckVertical(board: array2<Cell>, row: int, col: int, value: Player, depth: int) returns (found: bool)
    requires 0 <= row < board.Length0 && 0 <= col < board.Length1
    requires board[row, col].Mark?
    modifies board
    ensures found == Scan(old(Snapshot(board)), Vertical, row, col, value, depth).found
    ensures Snapshot(board) == Scan(old(Snapshot(board)), Vertical, row, col, value, depth).board
  {
    ghost var g := Snapshot(board);
    var sequence, p1, c1 := Extend(board, row - 1, col, -1, 0, value, depth, 1);
    assert Snapshot(board) == g;
    assert sequence - 1 == Behind(g, Vertical, row, col, value, depth);
    // back onto the last tile the walk counted
    p1 := p1 + 1;
    var p2, c2;
    sequence, p2, c2 := Extend(board, row + 1, col, 1, 0, value, depth, sequence);
    assert Snapshot(board) == g;
    if sequence == depth {
      CompletesWindow(g, Vertical, row, col, value, depth);
      ghost var lo := Start(g, Vertical, row, col, value, depth);
      assert p1 == row + lo;
      WindowFlaggable(g, Vertical, row, col, value, lo, depth);
      MarkColumn(board, row, col, lo, depth, p1);
      return true;
    }
    return false;
  }

  /** checkDiagonal: counts the run of `value` through (row, col) up-left then down-right, and flags it, from its down-right end, when it reaches `depth`. */
  method CheckDiagonal(board: array2<Cell>, row: int, col: int, value: Player, depth: int) returns (found: bool)
    requires 0 <= row < board.Length0 && 0 <= col < board.Length1
    requires board[row, col].Mark?
    modifies board
    ensures found == Scan(old(Snapshot(board)), Diagonal, row, col, value, depth).found
    ensures Snapshot(board) == Scan(old(Snapshot(board)), Diagonal, row, col, value, depth).board
  {
    ghost var g := Snapshot(board);
    var sequence, pRow, pCol := Extend(board, row - 1, col - 1, -1, -1, value, depth, 1);
    assert Snapshot(board) == g;
    assert sequence - 1 == Behind(g, Diagonal, row, col, value, depth);
    // the second walk starts next to (row, col)
    pRow, pCol := row + 1, col + 1;
    sequence, pRow, pCol := Extend(board, pRow, pCol, 1, 1, value, depth, sequence);
    // back onto the last tile the walk counted
    pRow, pCol := pRow - 1, pCol - 1;
    assert Snapshot(board) == g;
    if sequence == depth {
      CompletesWindow(g, Diagonal, row, col, value, depth);
      ghost var lo := Start(g, Diagonal, row, col, value, depth);
      assert pRow == row + lo + depth - 1 && pCol == col + lo + depth - 1;
      WindowFlaggable(g, Diagonal, row, col, value, lo, depth);
      MarkDiagonal(board, row, col, lo, depth, pRow, pCol);
      return true;
    }
    return false;
  }

  /** checkAntiDiagonal: counts the run of `value` through (row, col) down-left then up-right, and flags it, from its up-right end, when it reaches `depth`. */
  method CheckAntiDiagonal(board: array2<Cell>, row: int, col: int, value: Player, depth: int) returns (found: bool)
    requires 0 <= row < board.Length0 && 0 <= col < board.Length1
    requires board[row, col].Mark?
    modifies board
    ensures found == Scan(old(Snapshot(board)), AntiDiagonal, row, col, value, depth).found
    ensures Snapshot(board) == Scan(old(Snapshot(board)), AntiDiagonal, row, col, value, depth).board
  {
    ghost var g := Snapshot(board);
    var sequence, pRow, pCol := Extend(board, row + 1, col - 1, 1, -1, value, depth, 1);
    assert Snapshot(board) == g;
    assert sequence - 1 == Behind(g, AntiDiagonal, row, col, value, depth);
    // the second walk starts next to (row, col)
    pRow, pCol := row - 1, col + 1;
    sequence, pRow, pCol := Extend(board, pRow, pCol, -1, 1, value, depth, sequence);
    // back onto the last tile the walk counted
    pRow, pCol := pRow + 1, pCol - 1;
    assert Snapshot(board) == g;
    if sequence == depth {
      CompletesWindow(g, AntiDiagonal, row, col, value, depth);
      ghost var lo := Start(g, AntiDiagonal, row, col, value, depth);
      assert pRow == row - (lo + depth - 1) && pCol == col + lo + depth - 1;
      WindowFlaggable(g, AntiDiagonal, row, col, value, lo, depth);
      MarkAntiDiagonal(board, row, col, lo, depth, pRow, pCol);
      return true;
    }
    return false;
  }

  /**
   * updateBoard: copies the board, writes the mover's mark with its flag
   * clear, and runs the scanners in the order of the `||` chain until one
   * finds a run. The board passed in is never written.
   */
  method UpdateBoard(board: array2<Cell>, row: int, col: int, value: Player, depth: int) returns (isWin: bool, newBoard: array2<Cell>)
    requires 0 <= row < board.Length0 && 0 <= col < board.Length1
    ensures fresh(newBoard)
    ensures Outcome(isWin, Snapshot(newBoard)) == Update(Snapshot(board), row, col, value, depth)
  {
    ghost var g := Snapshot(board);
    newBoard := CopyBoard(board);
    newBoard[row, col] := Mark(value, false);
    SnapshotIs(newBoard, Placed(g, row, col, value));

    isWin := CheckHorizontal(newBoard, row, col, value, depth);
    if !isWin {
      isWin := CheckVertical(newBoard, row, col, value, depth);
    }
    if !isWin {
      isWin := CheckDiagonal(newBoard, row, col, value, depth);
    }
    if !isWin {
      isWin := CheckAntiDiagonal(newBoard, row, col, value, depth);
    }
  }
}
