/** The values of the k-in-a-row game: players, tiles and boards, and how many marks a board holds. */
module Tiles {

  /** The two players. The source encodes p1 as 1 and p2 as -1; no other value is a player. */
  datatype Player = P1 | P2 {
    /** The opponent, who moves next when the game goes on. */
    function Other(): (q: Player)
      ensures q != this
    {
      if this == P1 then P2 else P1
    }
  }

  /** A tile: empty (`[]`), or a player's mark with its "part of a winning sequence" flag (`[player, flag]`). */
  datatype Cell = Empty | Mark(player: Player, inSequence: bool)

  /** A board as a value: a list of rows of tiles. */
  type Grid = seq<seq<Cell>>

  /** The tile with its sequence flag set and its player kept. */
  function WithSequence(c: Cell): Cell {
    match c
    case Empty => Empty
    case Mark(p, _) => Mark(p, true)
  }

  /** The tile with its sequence flag forgotten: what a tile says about who played there. */
  function Unflagged(c: Cell): Cell {
    match c
    case Empty => Empty
    case Mark(p, _) => Mark(p, false)
  }

  predicate InBounds(g: Grid, r: int, c: int) {
    0 <= r < |g| && 0 <= c < |g[r]|
  }

  /**
   * The bounds-checked lookup `board[r]?.[c]?.[0] === v`: a position off the
   * board, or an empty tile, does not hold `v`.
   */
  predicate HoldsValue(g: Grid, r: int, c: int, v: Player) {
    InBounds(g, r, c) && g[r][c].Mark? && g[r][c].player == v
  }

  predicate IsSquare(g: Grid) {
    forall i :: 0 <= i < |g| ==> |g[i]| == |g|
  }

  /** Both boards have the same shape and the same player (or none) on every tile; only flags may differ. */
  predicate SameMarks(g: Grid, h: Grid) {
    && |g| == |h|
    && (forall i :: 0 <= i < |g| ==> |g[i]| == |h[i]|)
    && (forall i, j :: 0 <= i < |g| && 0 <= j < |g[i]| ==> Unflagged(g[i][j]) == Unflagged(h[i][j]))
  }

  lemma SameMarksHoldsValue(g: Grid, h: Grid, r: int, c: int, v: Player)
    requires SameMarks(g, h)
    ensures HoldsValue(g, r, c, v) == HoldsValue(h, r, c, v)
  {
    if InBounds(g, r, c) {
      assert Unflagged(g[r][c]) == Unflagged(h[r][c]);
    }
  }

  /** The board that createBoard(n) builds: n rows of n empty tiles. */
  function EmptyGrid(n: nat): (g: Grid)
    ensures |g| == n && IsSquare(g)
    ensures forall i, j :: 0 <= i < n && 0 <= j < n ==> g[i][j] == Empty
  {
    seq(n, i => seq(n, j => Empty))
  }

  /** The board with tile (r, c) replaced by `m`. */
  function Place(g: Grid, r: int, c: int, m: Cell): (h: Grid)
    requires InBounds(g, r, c)
    ensures |h| == |g| && (forall i :: 0 <= i < |g| ==> |h[i]| == |g[i]|)
    ensures h[r][c] == m
    ensures forall i, j :: InBounds(g, i, j) && (i, j) != (r, c) ==> h[i][j] == g[i][j]
  {
    g[r := g[r][c := m]]
  }

  // ----- counting marks -----

  /** Number of marked tiles in a row. */
  function CountRow(cells: seq<Cell>): nat {
    if cells == [] then 0 else (if cells[0].Mark? then 1 else 0) + CountRow(cells[1..])
  }

  /** Number of marked tiles on a board. */
  function CountMarks(g: Grid): nat {
    if g == [] then 0 else CountRow(g[0]) + CountMarks(g[1..])
  }

  /** Number of tiles on a board. */
  function Area(g: Grid): nat {
    if g == [] then 0 else |g[0]| + Area(g[1..])
  }

  predicate AllMarked(g: Grid) {
    forall i, j :: 0 <= i < |g| && 0 <= j < |g[i]| ==> g[i][j].Mark?
  }

  /** A row never holds more marks than tiles, and holds as many exactly when every tile is marked. */
  lemma {:induction false} CountRowBound(cells: seq<Cell>)
    ensures CountRow(cells) <= |cells|
    ensures CountRow(cells) == |cells| <==> forall j :: 0 <= j < |cells| ==> cells[j].Mark?
  {
    if cells != [] {
      CountRowBound(cells[1..]);
      assert forall j :: 1 <= j < |cells| ==> cells[j] == cells[1..][j - 1];
    }
  }

  /** A board never holds more marks than tiles, and holds as many exactly when every tile is marked. */
  lemma {:induction false} CountMarksBound(g: Grid)
    ensures CountMarks(g) <= Area(g)
    ensures CountMarks(g) == Area(g) <==> AllMarked(g)
  {
    if g != [] {
      CountRowBound(g[0]);
      CountMarksBound(g[1..]);
      assert forall i :: 1 <= i < |g| ==> g[i] == g[1..][i - 1];
      if CountMarks(g) == Area(g) {
        assert CountRow(g[0]) == |g[0]|;
        forall i, j | 0 <= i < |g| && 0 <= j < |g[i]| ensures g[i][j].Mark? {
          if i > 0 {
            assert g[1..][i - 1][j].Mark?;
          }
        }
      }
      if AllMarked(g) {
        assert AllMarked(g[1..]) by {
          forall i, j | 0 <= i < |g[1..]| && 0 <= j < |g[1..][i]| ensures g[1..][i][j].Mark? {
            assert g[1..][i] == g[i + 1];
          }
        }
      }
    }
  }

  /** A square board of side n has n * n tiles. */
  lemma {:induction false} AreaOfRows(g: Grid, k: nat)
    requires forall i :: 0 <= i < |g| ==> |g[i]| == k
    ensures Area(g) == |g| * k
  {
    if g != [] {
      AreaOfRows(g[1..], k);
      assert Area(g) == k + (|g| - 1) * k;
    }
  }

  lemma {:induction false} CountRowSame(a: seq<Cell>, b: seq<Cell>)
    requires |a| == |b|
    requires forall j :: 0 <= j < |a| ==> Unflagged(a[j]) == Unflagged(b[j])
    ensures CountRow(a) == CountRow(b)
  {
    if a != [] {
      assert Unflagged(a[0]) == Unflagged(b[0]);
      CountRowSame(a[1..], b[1..]);
    }
  }

  /** Setting and clearing sequence flags never changes how many tiles are marked. */
  lemma {:induction false} CountMarksSame(g: Grid, h: Grid)
    requires SameMarks(g, h)
    ensures CountMarks(g) == CountMarks(h)
  {
    if g != [] {
      CountRowSame(g[0], h[0]);
      assert SameMarks(g[1..], h[1..]) by {
        forall i, j | 0 <= i < |g[1..]| && 0 <= j < |g[1..][i]|
          ensures Unflagged(g[1..][i][j]) == Unflagged(h[1..][i][j])
        {
          assert g[1..][i] == g[i + 1] && h[1..][i] == h[i + 1];
        }
      }
      CountMarksSame(g[1..], h[1..]);
    }
  }

  lemma {:induction false} CountRowPlace(cells: seq<Cell>, c: int, m: Cell)
    requires 0 <= c < |cells| && cells[c] == Empty && m.Mark?
    ensures CountRow(cells[c := m]) == CountRow(cells) + 1
  {
    if c == 0 {
      assert cells[c := m][1..] == cells[1..];
    } else {
      assert cells[c := m][1..] == cells[1..][c - 1 := m];
      CountRowPlace(cells[1..], c - 1, m);
    }
  }

  /** Marking an empty tile adds exactly one mark to the board. */
  lemma {:induction false} CountMarksPlace(g: Grid, r: int, c: int, m: Cell)
    requires InBounds(g, r, c) && g[r][c] == Empty && m.Mark?
    ensures CountMarks(Place(g, r, c, m)) == CountMarks(g) + 1
  {
    var h := Place(g, r, c, m);
    if r == 0 {
      CountRowPlace(g[0], c, m);
      assert h[1..] == g[1..];
    } else {
      assert h[1..] == Place(g[1..], r - 1, c, m);
      CountMarksPlace(g[1..], r - 1, c, m);
    }
  }

  /** A board of empty tiles, such as a fresh one, holds no marks. */
  lemma {:induction false} CountMarksEmpty(g: Grid)
    requires forall i, j :: 0 <= i < |g| && 0 <= j < |g[i]| ==> g[i][j] == Empty
    ensures CountMarks(g) == 0
  {
    if g != [] {
      EmptyRow(g[0]);
      assert forall i :: 1 <= i < |g| ==> g[1..][i - 1] == g[i];
      CountMarksEmpty(g[1..]);
    }
  }

  lemma {:induction false} EmptyRow(cells: seq<Cell>)
    requires forall j :: 0 <= j < |cells| ==> cells[j] == Empty
    ensures CountRow(cells) == 0
  {
    if cells != [] {
      EmptyRow(cells[1..]);
    }
  }
}
