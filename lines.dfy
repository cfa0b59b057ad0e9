/**
 * What the four line scanners and the move applicator of utils.ts compute,
 * stated on board values. The imperative versions in module Utils are proved
 * to produce exactly these results.
 */
module Lines {
  import opened Tiles

  /** The four orientations a winning line can take. */
  datatype Axis = Horizontal | Vertical | Diagonal | AntiDiagonal {
    /** Position of the scanner in the short-circuit `||` chain of updateBoard. */
    function Rank(): nat {
      match this
      case Horizontal => 0
      case Vertical => 1
      case Diagonal => 2
      case AntiDiagonal => 3
    }
  }

  // ----- geometry of one axis -----

  /**
   * Row of the tile `t` steps from (row, col) along `axis`. Positive steps go
   * the way the scanner's second walk goes (right, down, down-right, up-right),
   * negative steps the way its first walk goes.
   */
  function RowAt(axis: Axis, row: int, t: int): int {
    match axis
    case Horizontal => row
    case Vertical => row + t
    case Diagonal => row + t
    case AntiDiagonal => row - t
  }

  /** Column of the tile `t` steps from (row, col) along `axis`. */
  function ColAt(axis: Axis, col: int, t: int): int {
    if axis == Vertical then col else col + t
  }

  /** Row change of one step along `axis`, the way its second walk goes. */
  function StepRow(axis: Axis): int {
    match axis
    case Horizontal => 0
    case Vertical => 1
    case Diagonal => 1
    case AntiDiagonal => -1
  }

  /** Column change of one step along `axis`, the way its second walk goes. */
  function StepCol(axis: Axis): int {
    if axis == Vertical then 0 else 1
  }

  /** One step along the axis moves from the tile `t` steps away to the tile `t + 1` steps away. */
  lemma StepAt(axis: Axis, row: int, col: int, t: int)
    ensures RowAt(axis, row, t) + StepRow(axis) == RowAt(axis, row, t + 1)
    ensures ColAt(axis, col, t) + StepCol(axis) == ColAt(axis, col, t + 1)
  {
  }

  /** How many steps from (row, col) the tile (i, j) lies, were it on the axis. */
  function Offset(axis: Axis, row: int, col: int, i: int, j: int): int {
    if axis == Vertical then i - row else j - col
  }

  /** Tile (i, j) lies on the axis through (row, col), between `lo` and `hi` steps from it. */
  predicate OnSegment(axis: Axis, row: int, col: int, lo: int, hi: int, i: int, j: int) {
    var t := Offset(axis, row, col, i, j);
    lo <= t <= hi && i == RowAt(axis, row, t) && j == ColAt(axis, col, t)
  }

  lemma OnSegmentAt(axis: Axis, row: int, col: int, lo: int, hi: int, t: int)
    ensures Offset(axis, row, col, RowAt(axis, row, t), ColAt(axis, col, t)) == t
    ensures OnSegment(axis, row, col, lo, hi, RowAt(axis, row, t), ColAt(axis, col, t)) <==> lo <= t <= hi
  {
  }

  /** The tile `t` steps from (row, col) holds a mark of `v` (false off the board). */
  predicate MatchesAt(g: Grid, axis: Axis, row: int, col: int, t: int, v: Player) {
    HoldsValue(g, RowAt(axis, row, t), ColAt(axis, col, t), v)
  }

  /** The tiles `lo` to `hi` steps from (row, col), as a set of positions. */
  function SegmentCells(axis: Axis, row: int, col: int, lo: int, hi: int): set<(int, int)>
    decreases hi - lo
  {
    if hi < lo then {} else SegmentCells(axis, row, col, lo, hi - 1) + {(RowAt(axis, row, hi), ColAt(axis, col, hi))}
  }

  /** A segment from `lo` to `hi` holds hi - lo + 1 distinct tiles, namely those OnSegment picks out. */
  lemma {:induction false} SegmentCellsSize(axis: Axis, row: int, col: int, lo: int, hi: int)
    requires lo <= hi + 1
    ensures |SegmentCells(axis, row, col, lo, hi)| == hi - lo + 1
    ensures forall i, j :: (i, j) in SegmentCells(axis, row, col, lo, hi) <==> OnSegment(axis, row, col, lo, hi, i, j)
    decreases hi - lo
  {
    if lo <= hi {
      SegmentCellsSize(axis, row, col, lo, hi - 1);
      var last := (RowAt(axis, row, hi), ColAt(axis, col, hi));
      OnSegmentAt(axis, row, col, lo, hi - 1, hi);
      assert last !in SegmentCells(axis, row, col, lo, hi - 1);
      forall i, j ensures (i, j) in SegmentCells(axis, row, col, lo, hi) <==> OnSegment(axis, row, col, lo, hi, i, j) {
        if OnSegment(axis, row, col, lo, hi, i, j) && Offset(axis, row, col, i, j) == hi {
          assert (i, j) == last;
        }
      }
    }
  }

  // ----- the two walks -----

  /**
   * One walk of a scanner, as its while loop runs: `k` tiles have been
   * counted so far and (r, c) is the next tile to look at; while fewer than
   * `cap` are counted and that tile holds `v`, count it and step by (dr, dc).
   * The result is the number of tiles counted.
   */
  function Walk(g: Grid, r: int, c: int, dr: int, dc: int, v: Player, k: nat, cap: nat): (n: nat)
    requires k <= cap
    ensures k <= n <= cap
    decreases cap - k
  {
    if k == cap || !HoldsValue(g, r, c, v) then k
    else Walk(g, r + dr, c + dc, dr, dc, v, k + 1, cap)
  }

  /** How many tiles besides (row, col) both walks may count together: `sequence` starts at 1 and stops at `depth`. */
  function Cap(depth: int): nat {
    if depth >= 1 then depth - 1 else 0
  }

  /**
   * The first walk, `k` tiles into it, looks at the tile `k + 1` steps back
   * from (row, col); every tile it counts holds `v`, and it stops short of
   * `cap` only at a tile that does not.
   */
  lemma {:induction false} WalkBackMatches(g: Grid, axis: Axis, row: int, col: int, v: Player, k: nat, cap: nat)
    requires k <= cap
    ensures var n := Walk(g, RowAt(axis, row, -(k as int) - 1), ColAt(axis, col, -(k as int) - 1), -StepRow(axis), -StepCol(axis), v, k, cap);
      && (forall t: int :: -(n as int) <= t < -(k as int) ==> MatchesAt(g, axis, row, col, t, v))
      && (n < cap ==> !MatchesAt(g, axis, row, col, -(n as int) - 1, v))
    decreases cap - k
  {
    if k < cap && MatchesAt(g, axis, row, col, -(k as int) - 1, v) {
      StepAt(axis, row, col, -(k as int) - 2);
      WalkBackMatches(g, axis, row, col, v, k + 1, cap);
    }
  }

  /** The second walk, `k` tiles into it, looks at the tile `k + 1` steps on from (row, col); the same holds. */
  lemma {:induction false} WalkOnMatches(g: Grid, axis: Axis, row: int, col: int, v: Player, k: nat, cap: nat)
    requires k <= cap
    ensures var n := Walk(g, RowAt(axis, row, k + 1), ColAt(axis, col, k + 1), StepRow(axis), StepCol(axis), v, k, cap);
      && (forall t :: k < t <= n ==> MatchesAt(g, axis, row, col, t, v))
      && (n < cap ==> !MatchesAt(g, axis, row, col, n + 1, v))
    decreases cap - k
  {
    if k < cap && MatchesAt(g, axis, row, col, k + 1, v) {
      StepAt(axis, row, col, k + 1);
      WalkOnMatches(g, axis, row, col, v, k + 1, cap);
    }
  }

  /** Tiles the first walk counts behind (row, col). */
  function Behind(g: Grid, axis: Axis, row: int, col: int, v: Player, depth: int): nat {
    Walk(g, row - StepRow(axis), col - StepCol(axis), -StepRow(axis), -StepCol(axis), v, 0, Cap(depth))
  }

  /** Offset of the tile the first walk stopped on: the tile the adjusted left or upper pointer names. */
  function Start(g: Grid, axis: Axis, row: int, col: int, v: Player, depth: int): int {
    -(Behind(g, axis, row, col, v, depth) as int)
  }

  /** Tiles the second walk counts ahead of (row, col), with what the first walk left of the budget. */
  function Ahead(g: Grid, axis: Axis, row: int, col: int, v: Player, depth: int): nat {
    Walk(g, row + StepRow(axis), col + StepCol(axis), StepRow(axis), StepCol(axis), v, 0, Cap(depth) - Behind(g, axis, row, col, v, depth))
  }

  /** After both walks `sequence === depth`. */
  predicate Completes(g: Grid, axis: Axis, row: int, col: int, v: Player, depth: int) {
    depth >= 1 && 1 + Behind(g, axis, row, col, v, depth) + Ahead(g, axis, row, col, v, depth) == depth
  }

  // ----- what a run is, independently of the walks -----

  /** Every tile `lo` .. `lo + len - 1` steps from (row, col), except (row, col) itself, holds a mark of `v`. */
  ghost predicate Window(g: Grid, axis: Axis, row: int, col: int, v: Player, lo: int, len: int) {
    forall t :: lo <= t < lo + len && t != 0 ==> MatchesAt(g, axis, row, col, t, v)
  }

  /**
   * Some `depth` consecutive tiles along the axis pass through (row, col), and
   * all of them but (row, col) hold marks of `v`: the run of `v` through
   * (row, col), counting (row, col), is at least `depth` long.
   */
  ghost predicate HasRun(g: Grid, axis: Axis, row: int, col: int, v: Player, depth: int) {
    exists lo :: -depth < lo <= 0 && Window(g, axis, row, col, v, lo, depth)
  }

  /** The walks report `sequence === depth` exactly when a run of length `depth` passes through (row, col). */
  lemma CompletesIffRun(g: Grid, axis: Axis, row: int, col: int, v: Player, depth: int)
    ensures Completes(g, axis, row, col, v, depth) <==> HasRun(g, axis, row, col, v, depth)
  {
    if Completes(g, axis, row, col, v, depth) {
      CompletesWindow(g, axis, row, col, v, depth);
      assert -depth < Start(g, axis, row, col, v, depth) <= 0;
    }
    if HasRun(g, axis, row, col, v, depth) {
      var lo :| -depth < lo <= 0 && Window(g, axis, row, col, v, lo, depth);
      RunCompletes(g, axis, row, col, v, depth, lo);
    }
  }

  /** Any window of length `depth` through (row, col) makes the walks reach `depth`. */
  lemma RunCompletes(g: Grid, axis: Axis, row: int, col: int, v: Player, depth: int, lo: int)
    requires -depth < lo <= 0 && Window(g, axis, row, col, v, lo, depth)
    ensures Completes(g, axis, row, col, v, depth)
  {
    var b: int := Behind(g, axis, row, col, v, depth);
    var a: int := Ahead(g, axis, row, col, v, depth);
    StepAt(axis, row, col, -1);
    StepAt(axis, row, col, 0);
    WalkBackMatches(g, axis, row, col, v, 0, Cap(depth));
    WalkOnMatches(g, axis, row, col, v, 0, Cap(depth) - b);
    assert b >= -lo;
    assert a == Cap(depth) - b;
  }

  /** When the walks complete, the `depth` tiles from where the first walk stopped form a window of `v`. */
  lemma CompletesWindow(g: Grid, axis: Axis, row: int, col: int, v: Player, depth: int)
    requires Completes(g, axis, row, col, v, depth)
    ensures Window(g, axis, row, col, v, Start(g, axis, row, col, v, depth), depth)
  {
    var b := Behind(g, axis, row, col, v, depth);
    StepAt(axis, row, col, -1);
    StepAt(axis, row, col, 0);
    WalkBackMatches(g, axis, row, col, v, 0, Cap(depth));
    WalkOnMatches(g, axis, row, col, v, 0, Cap(depth) - b);
  }

  /** Every tile `lo` .. `hi` steps from (row, col) lies on the board and holds a mark. */
  ghost predicate Flaggable(g: Grid, axis: Axis, row: int, col: int, lo: int, hi: int) {
    forall t :: lo <= t <= hi ==>
      InBounds(g, RowAt(axis, row, t), ColAt(axis, col, t)) && g[RowAt(axis, row, t)][ColAt(axis, col, t)].Mark?
  }

  /** Every tile of a window lies on the board and holds a mark, given that (row, col) does. */
  lemma WindowFlaggable(g: Grid, axis: Axis, row: int, col: int, v: Player, lo: int, len: int)
    requires InBounds(g, row, col) && g[row][col].Mark?
    requires Window(g, axis, row, col, v, lo, len)
    ensures Flaggable(g, axis, row, col, lo, lo + len - 1)
  {
    forall t | lo <= t <= lo + len - 1
      ensures InBounds(g, RowAt(axis, row, t), ColAt(axis, col, t)) && g[RowAt(axis, row, t)][ColAt(axis, col, t)].Mark?
    {
      if t != 0 {
        assert MatchesAt(g, axis, row, col, t, v);
      }
    }
  }

  // ----- one scanner -----

  /** What a scanner returns, with the board as it leaves it. */
  datatype ScanResult = ScanResult(found: bool, board: Grid)

  /** The board with the sequence flag set on every tile `lo` .. `hi` steps from (row, col). */
  function FlagSegment(g: Grid, axis: Axis, row: int, col: int, lo: int, hi: int): Grid {
    seq(|g|, i requires 0 <= i < |g| =>
      seq(|g[i]|, j requires 0 <= j < |g[i]| =>
        if OnSegment(axis, row, col, lo, hi, i, j) then WithSequence(g[i][j]) else g[i][j]))
  }

  /**
   * checkHorizontal, checkVertical, checkDiagonal and checkAntiDiagonal: walk
   * back, walk on, and when `sequence === depth` flag the `depth` tiles from
   * as far back as the first walk got.
   */
  function Scan(g: Grid, axis: Axis, row: int, col: int, v: Player, depth: int): ScanResult {
    if Completes(g, axis, row, col, v, depth) then
      var lo := Start(g, axis, row, col, v, depth);
      ScanResult(true, FlagSegment(g, axis, row, col, lo, lo + depth - 1))
    else
      ScanResult(false, g)
  }

  /** A scanner reports a win exactly when the run of `v` through (row, col) on its axis is at least `depth` long. */
  lemma ScanFoundIffRun(g: Grid, axis: Axis, row: int, col: int, v: Player, depth: int)
    ensures Scan(g, axis, row, col, v, depth).found <==> HasRun(g, axis, row, col, v, depth)
  {
    CompletesIffRun(g, axis, row, col, v, depth);
  }

  /** A scanner never changes who holds a tile, and when it finds nothing it changes nothing. */
  lemma ScanKeepsMarks(g: Grid, axis: Axis, row: int, col: int, v: Player, depth: int)
    ensures SameMarks(g, Scan(g, axis, row, col, v, depth).board)
    ensures !Scan(g, axis, row, col, v, depth).found ==> Scan(g, axis, row, col, v, depth).board == g
  {
  }

  /**
   * `h` is `g` with the sequence flag set on the tiles `lo` .. `hi` steps
   * from (row, col), all of them distinct, on the board and marked, and with
   * every other tile left as it was.
   */
  ghost predicate FlagsExactly(g: Grid, h: Grid, axis: Axis, row: int, col: int, lo: int, hi: int) {
    && |SegmentCells(axis, row, col, lo, hi)| == hi - lo + 1
    && (forall t :: lo <= t <= hi ==>
          && InBounds(g, RowAt(axis, row, t), ColAt(axis, col, t))
          && InBounds(h, RowAt(axis, row, t), ColAt(axis, col, t))
          && var c := g[RowAt(axis, row, t)][ColAt(axis, col, t)];
             c.Mark? && h[RowAt(axis, row, t)][ColAt(axis, col, t)] == Mark(c.player, true))
    && (forall i, j :: InBounds(g, i, j) && (i, j) !in SegmentCells(axis, row, col, lo, hi) ==> InBounds(h, i, j) && h[i][j] == g[i][j])
  }

  /** Flagging a segment of marked tiles sets the flag on each of them and touches no other tile. */
  lemma FlagSegmentCells(g: Grid, axis: Axis, row: int, col: int, lo: int, hi: int)
    requires lo <= hi + 1 && Flaggable(g, axis, row, col, lo, hi)
    ensures FlagsExactly(g, FlagSegment(g, axis, row, col, lo, hi), axis, row, col, lo, hi)
  {
    SegmentCellsSize(axis, row, col, lo, hi);
    FlagSegmentSets(g, axis, row, col, lo, hi);
    FlagSegmentKeeps(g, axis, row, col, lo, hi);
  }

  /** Each tile of the segment comes out flagged. */
  lemma FlagSegmentSets(g: Grid, axis: Axis, row: int, col: int, lo: int, hi: int)
    requires Flaggable(g, axis, row, col, lo, hi)
    ensures var h := FlagSegment(g, axis, row, col, lo, hi);
      forall t :: lo <= t <= hi ==>
        && InBounds(h, RowAt(axis, row, t), ColAt(axis, col, t))
        && h[RowAt(axis, row, t)][ColAt(axis, col, t)] == WithSequence(g[RowAt(axis, row, t)][ColAt(axis, col, t)])
  {
    forall t | lo <= t <= hi
      ensures FlagSegment(g, axis, row, col, lo, hi)[RowAt(axis, row, t)][ColAt(axis, col, t)] == WithSequence(g[RowAt(axis, row, t)][ColAt(axis, col, t)])
    {
      OnSegmentAt(axis, row, col, lo, hi, t);
    }
  }

  /** Each tile off the segment comes out as it was. */
  lemma FlagSegmentKeeps(g: Grid, axis: Axis, row: int, col: int, lo: int, hi: int)
    requires lo <= hi + 1
    ensures var h := FlagSegment(g, axis, row, col, lo, hi);
      forall i, j :: InBounds(g, i, j) && (i, j) !in SegmentCells(axis, row, col, lo, hi) ==> InBounds(h, i, j) && h[i][j] == g[i][j]
  {
    SegmentCellsSize(axis, row, col, lo, hi);
  }


  /**
   * When a scanner finds a run it flags exactly `depth` tiles: one contiguous
   * segment of its axis through (row, col), every tile of it but (row, col)
   * holding `v`. All other tiles are left alone.
   */
  lemma ScanFlagsSegment(g: Grid, axis: Axis, row: int, col: int, v: Player, depth: int)
    requires InBounds(g, row, col) && g[row][col].Mark?
    ensures Scan(g, axis, row, col, v, depth).found ==>
      var lo := Start(g, axis, row, col, v, depth);
      && lo <= 0 < lo + depth
      && Window(g, axis, row, col, v, lo, depth)
      && FlagsExactly(g, Scan(g, axis, row, col, v, depth).board, axis, row, col, lo, lo + depth - 1)
  {
    if Scan(g, axis, row, col, v, depth).found {
      var lo := Start(g, axis, row, col, v, depth);
      CompletesWindow(g, axis, row, col, v, depth);
      WindowFlaggable(g, axis, row, col, v, lo, depth);
      FlagSegmentCells(g, axis, row, col, lo, lo + depth - 1);
    }
  }

  /** Scanning again returns the same answer and leaves the board as the first scan left it. */
  lemma ScanIdempotent(g: Grid, axis: Axis, row: int, col: int, v: Player, depth: int)
    ensures var r := Scan(g, axis, row, col, v, depth);
      Scan(r.board, axis, row, col, v, depth) == r
  {
    var r := Scan(g, axis, row, col, v, depth);
    if r.found {
      ScanKeepsMarks(g, axis, row, col, v, depth);
      WalksSameMarks(g, r.board, axis, row, col, v, depth);
      var lo := Start(g, axis, row, col, v, depth);
      FlagSegmentIdempotent(g, axis, row, col, lo, lo + depth - 1);
    }
  }

  lemma FlagSegmentIdempotent(g: Grid, axis: Axis, row: int, col: int, lo: int, hi: int)
    ensures FlagSegment(FlagSegment(g, axis, row, col, lo, hi), axis, row, col, lo, hi) == FlagSegment(g, axis, row, col, lo, hi)
  {
    var once := FlagSegment(g, axis, row, col, lo, hi);
    var twice := FlagSegment(once, axis, row, col, lo, hi);
    forall i | 0 <= i < |once| ensures twice[i] == once[i] {
      assert |twice[i]| == |once[i]|;
      forall j | 0 <= j < |once[i]| ensures twice[i][j] == once[i][j] {
      }
    }
  }

  /** The walks only look at who holds a tile, so flags never change what they count. */
  lemma WalksSameMarks(g: Grid, h: Grid, axis: Axis, row: int, col: int, v: Player, depth: int)
    requires SameMarks(g, h)
    ensures Behind(g, axis, row, col, v, depth) == Behind(h, axis, row, col, v, depth)
    ensures Ahead(g, axis, row, col, v, depth) == Ahead(h, axis, row, col, v, depth)
  {
    WalkSameMarks(g, h, row - StepRow(axis), col - StepCol(axis), -StepRow(axis), -StepCol(axis), v, 0, Cap(depth));
    var b := Behind(g, axis, row, col, v, depth);
    WalkSameMarks(g, h, row + StepRow(axis), col + StepCol(axis), StepRow(axis), StepCol(axis), v, 0, Cap(depth) - b);
  }

  lemma {:induction false} WalkSameMarks(g: Grid, h: Grid, r: int, c: int, dr: int, dc: int, v: Player, k: nat, cap: nat)
    requires SameMarks(g, h) && k <= cap
    ensures Walk(g, r, c, dr, dc, v, k, cap) == Walk(h, r, c, dr, dc, v, k, cap)
    decreases cap - k
  {
    SameMarksHoldsValue(g, h, r, c, v);
    if k < cap {
      WalkSameMarks(g, h, r + dr, c + dc, dr, dc, v, k + 1, cap);
    }
  }

  // ----- the move applicator -----

  /** What updateBoard returns. */
  datatype Outcome = Outcome(isWin: bool, newBoard: Grid)

  /** The board right after updateBoard writes the mover's mark, before any scanner runs. */
  function Placed(g: Grid, row: int, col: int, v: Player): Grid
    requires InBounds(g, row, col)
  {
    Place(g, row, col, Mark(v, false))
  }

  /**
   * updateBoard: on a copy of the board, mark (row, col) for `v` with the flag
   * clear, then run the four scanners in the order of the `||` chain, each on
   * the board the previous one left, stopping at the first that finds a run.
   */
  function Update(g: Grid, row: int, col: int, v: Player, depth: int): Outcome
    requires InBounds(g, row, col)
  {
    var h := Scan(Placed(g, row, col, v), Horizontal, row, col, v, depth);
    if h.found then Outcome(true, h.board) else
    var w := Scan(h.board, Vertical, row, col, v, depth);
    if w.found then Outcome(true, w.board) else
    var d := Scan(w.board, Diagonal, row, col, v, depth);
    if d.found then Outcome(true, d.board) else
    var a := Scan(d.board, AntiDiagonal, row, col, v, depth);
    Outcome(a.found, a.board)
  }

  /** A move wins exactly when, with the new mark in place, some axis has a run of `depth` through it. */
  lemma UpdateWinIff(g: Grid, row: int, col: int, v: Player, depth: int)
    requires InBounds(g, row, col)
    ensures Update(g, row, col, v, depth).isWin <==> exists axis :: HasRun(Placed(g, row, col, v), axis, row, col, v, depth)
  {
    var p := Placed(g, row, col, v);
    ScanFoundIffRun(p, Horizontal, row, col, v, depth);
    ScanFoundIffRun(p, Vertical, row, col, v, depth);
    ScanFoundIffRun(p, Diagonal, row, col, v, depth);
    ScanFoundIffRun(p, AntiDiagonal, row, col, v, depth);
    if exists axis :: HasRun(p, axis, row, col, v, depth) {
      var axis :| HasRun(p, axis, row, col, v, depth);
      assert axis == Horizontal || axis == Vertical || axis == Diagonal || axis == AntiDiagonal;
    }
  }

  /**
   * The new board differs from the old one only at (row, col), which holds the
   * mover's mark, and in sequence flags; and the old board is not the one changed.
   */
  lemma UpdateChangesOnlyTarget(g: Grid, row: int, col: int, v: Player, depth: int)
    requires InBounds(g, row, col)
    ensures var b := Update(g, row, col, v, depth).newBoard;
      && SameMarks(b, Placed(g, row, col, v))
      && InBounds(b, row, col) && b[row][col].Mark? && b[row][col].player == v
      && forall i, j :: InBounds(g, i, j) && (i, j) != (row, col) ==> Unflagged(b[i][j]) == Unflagged(g[i][j])
  {
    var p := Placed(g, row, col, v);
    ScanKeepsMarks(p, Horizontal, row, col, v, depth);
    ScanKeepsMarks(p, Vertical, row, col, v, depth);
    ScanKeepsMarks(p, Diagonal, row, col, v, depth);
    ScanKeepsMarks(p, AntiDiagonal, row, col, v, depth);
    var b := Update(g, row, col, v, depth).newBoard;
    assert Unflagged(b[row][col]) == Unflagged(p[row][col]);
  }

  /** `axis` has a run through (row, col), and no axis earlier in the `||` chain has one. */
  ghost predicate FirstRun(p: Grid, axis: Axis, row: int, col: int, v: Player, depth: int) {
    && HasRun(p, axis, row, col, v, depth)
    && forall other: Axis :: other.Rank() < axis.Rank() ==> !HasRun(p, other, row, col, v, depth)
  }

  /**
   * A winning move flags tiles along exactly one axis: the first in the order
   * horizontal, vertical, diagonal, anti-diagonal that has a run. A move that
   * does not win flags nothing.
   */
  lemma UpdateFlagsFirstAxis(g: Grid, row: int, col: int, v: Player, depth: int)
    requires InBounds(g, row, col)
    ensures var p := Placed(g, row, col, v);
      var o := Update(g, row, col, v, depth);
      && (o.isWin ==> exists axis :: FirstRun(p, axis, row, col, v, depth) && o.newBoard == Scan(p, axis, row, col, v, depth).board)
      && (!o.isWin ==> o.newBoard == p)
  {
    var p := Placed(g, row, col, v);
    var o := Update(g, row, col, v, depth);
    ScanFoundIffRun(p, Horizontal, row, col, v, depth);
    ScanFoundIffRun(p, Vertical, row, col, v, depth);
    ScanFoundIffRun(p, Diagonal, row, col, v, depth);
    ScanFoundIffRun(p, AntiDiagonal, row, col, v, depth);
    var axis :=
      if Scan(p, Horizontal, row, col, v, depth).found then Horizontal
      else if Scan(p, Vertical, row, col, v, depth).found then Vertical
      else if Scan(p, Diagonal, row, col, v, depth).found then Diagonal
      else AntiDiagonal;
    assert o == Outcome(Scan(p, axis, row, col, v, depth).found, Scan(p, axis, row, col, v, depth).board);
    if o.isWin {
      forall other: Axis | other.Rank() < axis.Rank() ensures !HasRun(p, other, row, col, v, depth) {
      }
      assert FirstRun(p, axis, row, col, v, depth);
    }
  }
}
