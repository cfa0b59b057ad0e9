# k-in-a-row game engine (ttt) in Dafny

This project models the game engine of a browser tic-tac-toe game played on an
n×n board, where a player wins with n marks in a row. It covers two parts of
the engine:

- **The board utilities** of `src/ttt/utils.ts`:
  - `createBoard` and `copyBoard`;
  - the four line scanners `checkHorizontal`, `checkVertical`,
    `checkDiagonal` and `checkAntiDiagonal`. Each counts the run of the mover's
    marks through a tile and flags the run's tiles when it is long enough;
  - `updateBoard`, which copies the board, places a mark and asks the scanners
    whether the move wins.
- **The game reducer** of `src/ttt/Board.tsx`, with actions decrement,
  increment, replay, reset and turn.

Modules:

- `Tiles` (`tiles.dfy`): the values.
  - Players, tiles as `Empty | Mark(player, inSequence)`, boards as
    `seq<seq<Cell>>`.
  - Mark counting, with its lemmas.
- `Lines` (`lines.dfy`): what each scanner and `updateBoard` compute, as
  functions on board values.
  - `Walk` mirrors one `while` loop of a scanner.
  - `Scan` is a whole scanner; `Update` is `updateBoard`.
  - The walks are related to an independent definition of a run
    (`Window`, `HasRun`). That gives the scanners' "if and only if".
  - Lemmas cover which tiles get flagged and what the `||` chain of scanners
    leaves behind.
- `Utils` (`utils.dfy`): the imperative code.
  - The board is an `array2<Cell>` that the scanners write in place.
  - `Snapshot` reads the array as a `Grid`.
  - Every method is proved to leave exactly the board, and return exactly the
    result, that the `Lines` functions give.
- `Game` (`game.dfy`): the reducer as a function on a `State` value.
  - It uses `Lines.Update`, the function `Utils.UpdateBoard` is proved
    against.
  - Lemmas cover each action's outcome, the win/tie/next-player rules and a
    state invariant that legal play preserves.

### Behaviour of the code worth knowing

- **A scanner reports a win on a run of at least `depth`; it flags one window of `depth` tiles.**
  - Both walks stop once `sequence` reaches `depth`. A longer run through the
    tile is therefore reported as a win.
  - The scanner flags one window of `depth` tiles: the one that starts where
    the first walk stopped.
  - `Lines.HasRun` states this, and `Lines.CompletesIffRun` proves it.
- **The diagonal scanners flag backward.**
  - `checkDiagonal` and `checkAntiDiagonal` flag from the far end of the
    second walk back towards the first walk's end; the other two scanners
    flag forward from the first walk's end.
  - The set of flagged tiles is the same either way. `Lines.FlagSegment`
    describes that set, and `Utils.MarkDiagonal`/`Utils.MarkAntiDiagonal`
    keep the source's order.
- **Not all four scanners always run.**
  - `updateBoard` chains them with `||`, so after the first success the rest
    do not run and flag nothing.
  - As a result, at most one axis is flagged (`Lines.UpdateFlagsFirstAxis`).
- **`createBoard(0)` returns the empty board.**
  - `new Array(0)` gives the empty board. Only a negative size fails, with a
    RangeError.
  - So `Utils.CreateBoard` takes any `nat`. A decrement is allowed on any
    board with at least one row; on a one-row board it produces the empty,
    zero-row board. Only a decrement on the empty board fails.

## Model

| member | source | states |
|---|---|---|
| Tiles.Player.Other | src/ttt/Board.tsx:116-118 | the player to move next after p1 is p2 and after p2 is p1; never the same player |
| Tiles.EmptyGrid | src/ttt/utils.ts:3-7 | createBoard(n) as a value: n rows of n tiles, every one empty |
| Tiles.Place | src/ttt/utils.ts:38 | writing one tile changes that tile to the new value and leaves every other tile and the board's shape alone |
| Tiles.CountMarksBound | src/ttt/Board.tsx:110 | a board never holds more marks than tiles, and holds as many exactly when every tile is marked |
| Tiles.AreaOfRows | src/ttt/Board.tsx:110 | an n-row board whose rows are n long has n * n tiles, the `Math.pow(n, 2)` of the full-board test |
| Tiles.CountMarksPlace | src/ttt/utils.ts:38 | writing a mark on an empty tile adds exactly one mark to the board |
| Tiles.CountMarksSame | src/ttt/utils.ts:89-92 | boards that differ only in sequence flags hold the same number of marks |
| Tiles.CountMarksEmpty | src/ttt/utils.ts:3-7 | a board of empty tiles, as createBoard makes, holds no marks |
| Lines.Walk | src/ttt/utils.ts:74-77 | a walk counts from where it starts up to its cap and never past it, so `sequence` stays between 1 and `depth` (or at 1 when depth < 1) |
| Lines.WalkBackMatches | src/ttt/utils.ts:74-77 | every tile the first walk counts holds the mover's mark, and when it stops short of its cap the next tile back does not |
| Lines.WalkOnMatches | src/ttt/utils.ts:83-86 | the same for the second walk, which continues the count from where the first stopped |
| Lines.CompletesIffRun | src/ttt/utils.ts:67-88 | after both walks `sequence === depth` holds if and only if some window of `depth` consecutive tiles on the axis contains (row, col) and holds the mover's marks at every tile other than (row, col) |
| Lines.RunCompletes | src/ttt/utils.ts:67-88 | any such window makes the walks reach `depth` |
| Lines.CompletesWindow | src/ttt/utils.ts:88-95 | when the walks reach `depth`, the `depth` tiles from where the first walk stopped form such a window; that is the window the marking loop starts from |
| Lines.WindowFlaggable | src/ttt/utils.ts:89-92 | every tile of a window through a marked tile lies on the board and holds a mark, so setting its flag is well defined |
| Lines.FlagSegmentCells | src/ttt/utils.ts:89-92 | flagging a segment sets the flag on each of its distinct tiles, keeps each tile's player, and leaves every other tile unchanged |
| Lines.FlagSegmentSets | src/ttt/utils.ts:89-92 | each tile of the segment comes out flagged |
| Lines.FlagSegmentKeeps | src/ttt/utils.ts:89-92 | each tile off the segment comes out unchanged |
| Lines.Scan | src/ttt/utils.ts:61-231 | the four scanners as one function of the axis; it has no `ensures` of its own: Lines.ScanFoundIffRun, Lines.ScanKeepsMarks, Lines.ScanFlagsSegment and Lines.ScanIdempotent state what it returns and leaves |
| Lines.ScanFoundIffRun | src/ttt/utils.ts:61-98 | a scanner returns true if and only if its axis holds a run of at least `depth` through (row, col) |
| Lines.ScanKeepsMarks | src/ttt/utils.ts:61-98 | a scanner never changes which player holds a tile; when it returns false it leaves the board unchanged |
| Lines.ScanFlagsSegment | src/ttt/utils.ts:88-97 | when a scanner returns true it flags exactly `depth` tiles: a contiguous segment of its axis containing (row, col), starting at most `depth - 1` tiles back, every tile of it but (row, col) holding the mover's mark; nothing else changes |
| Lines.ScanIdempotent | src/ttt/utils.ts:61-98 | running a scanner again on the board it left returns the same answer and changes nothing more |
| Lines.Update | src/ttt/utils.ts:27-51 | updateBoard on board values; it has no `ensures` of its own: Lines.UpdateWinIff, Lines.UpdateChangesOnlyTarget and Lines.UpdateFlagsFirstAxis state its win flag and new board, and Utils.UpdateBoard is proved equal to it |
| Lines.UpdateWinIff | src/ttt/utils.ts:40-45 | updateBoard reports a win if and only if, with the new mark placed, some axis has a run of at least `depth` through the tile |
| Lines.UpdateChangesOnlyTarget | src/ttt/utils.ts:37-38 | the new board differs from the old only at (row, col), which holds the mover's mark, and in sequence flags |
| Lines.UpdateFlagsFirstAxis | src/ttt/utils.ts:40-45 | a winning move flags the run of the first axis in the order horizontal, vertical, diagonal, anti-diagonal that has one, and only that; a move that does not win flags nothing |
| Utils.Holds | src/ttt/utils.ts:74 | the optional-chained lookup `board[r]?.[c]?.[0] === v` is true exactly when (r, c) is on the board and holds a mark of v |
| Utils.CreateBoard | src/ttt/utils.ts:3-7 | createBoard builds a new size×size array of empty tiles |
| Utils.CopyBoard | src/ttt/utils.ts:53-59 | copyBoard builds a new array, sharing nothing with its argument, with the same dimensions and the same tiles |
| Utils.Extend | src/ttt/utils.ts:74-77 | one walk loop of a scanner returns the count `Lines.Walk` gives and the pointer that many steps on |
| Utils.MarkRow | src/ttt/utils.ts:89-92 | the marking loop of checkHorizontal leaves the board with exactly the row segment flagged |
| Utils.MarkColumn | src/ttt/utils.ts:128-131 | the marking loop of checkVertical leaves the board with exactly the column segment flagged |
| Utils.MarkDiagonal | src/ttt/utils.ts:174-178 | the marking loop of checkDiagonal, walking up-left from the far end, leaves the board with exactly the diagonal segment flagged |
| Utils.MarkAntiDiagonal | src/ttt/utils.ts:221-225 | the marking loop of checkAntiDiagonal, walking down-left from the far end, leaves the board with exactly the anti-diagonal segment flagged |
| Utils.CheckHorizontal | src/ttt/utils.ts:61-98 | checkHorizontal returns what `Lines.Scan` returns for the horizontal axis and leaves the board `Lines.Scan` gives |
| Utils.CheckVertical | src/ttt/utils.ts:100-137 | checkVertical returns and leaves what `Lines.Scan` gives for the vertical axis |
| Utils.CheckDiagonal | src/ttt/utils.ts:139-184 | checkDiagonal returns and leaves what `Lines.Scan` gives for the diagonal |
| Utils.CheckAntiDiagonal | src/ttt/utils.ts:186-231 | checkAntiDiagonal returns and leaves what `Lines.Scan` gives for the anti-diagonal |
| Utils.UpdateBoard | src/ttt/utils.ts:27-51 | updateBoard returns a fresh board, never writes the one passed in, and returns the win flag and board `Lines.Update` gives |
| Game.NewGame | src/ttt/Board.tsx:55-61 | a new game is an empty square board of the given side, player 1 to move, no win, no tie, no moves |
| Game.Initial | src/ttt/Board.tsx:54-61 | INITIAL_GAME_STATE: an empty 3×3 square board, player 1 to move, no win, no tie, no moves |
| Game.IsBoardFull | src/ttt/Board.tsx:110 | the full-board test `turns + 1 === Math.pow(n, 2)`; it has no `ensures` of its own: Game.FullMeansAllMarked proves that under legal play it holds exactly when every tile is marked |
| Game.Reduce | src/ttt/Board.tsx:70-126 | the reducer; it has no `ensures` of its own: Game.RestartSizes states the four restart actions, Game.TurnOutcome, Game.TurnWinIff and Game.TurnCountsMarks state a turn, and Game.ReducePreservesValid the invariant every legal action keeps |
| Game.InitialValid | src/ttt/Board.tsx:54-61 | the initial game has a 3×3 board and satisfies the state invariant |
| Game.RestartSizes | src/ttt/Board.tsx:78-97 | decrement, increment, replay and reset start a new game with no marks on a square board of side n - 1, n + 1, n and 3 |
| Game.TurnOutcome | src/ttt/Board.tsx:98-122 | a turn adds one to the move count and keeps the board size; it is a tie exactly when the board is full and the move did not win, so never a win and a tie at once; play passes to the other player exactly when the move neither won nor filled the board |
| Game.TurnWinIff | src/ttt/Board.tsx:100-120 | a turn wins if and only if the mover now has a run as long as the board's side through the tile, and the winner stays the current player |
| Game.TurnCountsMarks | src/ttt/Board.tsx:98-122 | a legal turn puts exactly one more mark on the square board |
| Game.ReducePreservesValid | src/ttt/Board.tsx:70-126 | every legal action keeps the state invariant: a square board, as many moves counted as marks on it, and never both win and tie |
| Game.FullMeansAllMarked | src/ttt/Board.tsx:110-119 | with legal moves, `turns + 1 === n * n` holds exactly when every tile is marked, so a tie means a full board and no win |

## Left out

- Local storage is not modelled: loading the saved state (`JSON.parse`) and saving it on unload. The saved state is never validated, so a loaded game can hold any values.
- The React component, hooks, JSX rendering, `Tile.tsx` and `App.tsx` are not modelled. They are UI wiring around the reducer.
- The `window.confirm` dialogs that dispatch a replay after a win or tie are not modelled, because they are user I/O. A replay is modelled as an action.
- The reducer's `default: throw` is not modelled, because `Game.Action` has no other kind of action.
- Game.Reduce: requires `Allowed`, which excludes the decrement that throws and every turn off the board. A decrement on the empty board throws a RangeError from `new Array(-1)`. The app can dispatch it. `Board` shows its own guarded size buttons only when no ref is passed (`src/ttt/Board.tsx:216`). `App` passes a ref (`src/App.tsx:12`), and its "Decrease Board Size" button calls `decrement()` with no guard (`src/App.tsx:22-26`). So from the 3×3 board the fourth click crashes the reducer. A turn off the board does not always throw. A row off the board throws a TypeError at `src/ttt/utils.ts:38`. A column past the end lengthens the row. A negative column stores the mark under a non-index key of the row; the scanners still read and flag that key, so it can complete a win that the rendered board never shows. None of these arise from the UI: the tiles dispatch only their own positions (`src/ttt/Board.tsx:189-206`, `src/ttt/Tile.tsx:33`).
- Utils.CheckHorizontal, Utils.CheckVertical, Utils.CheckDiagonal, Utils.CheckAntiDiagonal: require the tile at (row, col) to hold a mark. On an empty tile the source would write `[undefined, true]`, which `Cell` cannot represent. `updateBoard` always places the mark first.
- Utils.UpdateBoard: requires (row, col) on the board, for the same reason as a turn.
- Utils.Extend: the walk loops are modelled as one shared method that each scanner calls twice, instead of being written inline eight times. The loop body is the source's: count one, step the pointer.
- Utils.MarkRow, Utils.MarkColumn, Utils.MarkDiagonal, Utils.MarkAntiDiagonal: each marking `for` loop is a method of its own, called where the source runs the loop.
- Object identity of tiles is not modelled. `createBoard` fills a row with one shared `[]` array; tiles here are values. The sharing is invisible in the source too, because tiles are replaced, never changed in place, until `copyBoard` has copied them.
- Player values are not modelled as numbers. `Player` has only p1 and p2, the values 1 and -1; `currPlayer === Player.p1 ? p2 : p1` is `Other`.
- `Math.pow` is not modelled: `Math.pow(n, 2)` is `n * n` on unbounded integers. Board sides are at most 20 in the UI, far from floating-point limits.
