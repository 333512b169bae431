/** The session state of `SudokuGame.js` and its event handlers: `startNewGame`,
    `handleDifficultyChange`, `handleCellClick`, `handleNumberInput` and the one-second
    timer tick. A cell is "fixed" when the initial board holds a number there. */
module SudokuGame {
  import opened Wrappers
  import opened GameCommon
  import opened Sudoku

  /** A digit of the number pad. */
  type Digit = n: int | 1 <= n <= 9 witness 1

  /** The component state. `solved` starts as the empty board where the source
      starts from `null`; it is only read once a game has started. */
  datatype Game = Game(
    board: Board,
    selected: Option<(int, int)>,
    initial: Board,
    difficulty: Difficulty,
    started: bool,
    mistakes: nat,
    timer: nat,
    running: bool,
    solved: Board)

  /** The cells `startNewGame` clears for each difficulty. */
  function CellsToClear(d: Difficulty): (k: nat)
    ensures 0 < k < 81
  {
    match d
    case Easy => 30
    case Medium => 40
    case Hard => 50
  }

  /** The state before the first game: empty boards, medium difficulty, stopped. */
  function Mount(): (g: Game)
    ensures Inv(g) && !g.started && !g.running && g.difficulty == Medium
  {
    Game(CreateEmptyBoard(), None, CreateEmptyBoard(), Medium, false, 0, 0, false, CreateEmptyBoard())
  }

  /** The cell at `(r, c)` is selectable: it is empty on the initial board. */
  predicate Editable(g: Game, r: int, c: int)
    requires IsBoard(g.initial) && 0 <= r < 9 && 0 <= c < 9
  {
    g.initial[r][c] == Empty
  }

  /** What every reachable state satisfies: three 9×9 boards, a selection (if any) on a
      non-fixed cell, the board agreeing with the initial board on every fixed cell,
      and, once started, the fixed cells agreeing with the solution. */
  predicate Inv(g: Game) {
    && IsBoard(g.board) && IsBoard(g.initial) && IsBoard(g.solved)
    && (g.selected.Some? ==> var (r, c) := g.selected.value;
          0 <= r < 9 && 0 <= c < 9 && g.initial[r][c] == Empty)
    && (forall r, c :: 0 <= r < 9 && 0 <= c < 9 && g.initial[r][c] != Empty ==> g.board[r][c] == g.initial[r][c])
    && (g.started ==> forall r, c :: 0 <= r < 9 && 0 <= c < 9 && g.initial[r][c] != Empty ==>
          g.solved[r][c] == g.initial[r][c])
  }

  /** A generated puzzle as `generateBoard` returns it: the initial board is the
      solution with some cells cleared. */
  predicate IsCarved(p: Puzzle) {
    IsBoard(p.initial) && IsBoard(p.solved)
    && forall r, c :: 0 <= r < 9 && 0 <= c < 9 ==> p.initial[r][c] == Empty || p.initial[r][c] == p.solved[r][c]
  }

  /** `startNewGame(d)` given the board `generateBoard(CellsToClear(d))` produced: the
      board starts as a copy of the initial board, mistakes and timer are zero, the
      selection is cleared and the game runs. The difficulty itself is not changed. */
  function StartNewGame(g: Game, p: Puzzle): (g': Game)
    requires IsCarved(p)
    ensures Inv(g')
    ensures g'.board == g'.initial == p.initial && g'.solved == p.solved
    ensures g'.selected.None? && g'.mistakes == 0 && g'.timer == 0
    ensures g'.started && g'.running && g'.difficulty == g.difficulty
  {
    g.(board := p.initial, initial := p.initial, solved := p.solved, started := true,
       mistakes := 0, timer := 0, running := true, selected := None)
  }

  /** `startNewGame(newDifficulty)` together with its generator call: `generateBoard`
      clears `CellsToClear(d)` cells and the game restarts on the result. `None` stands
      for a carve whose draws run out, where the source keeps drawing: after a successful
      fill that happens exactly when the draws name fewer than `CellsToClear(d)` distinct
      cells. When the fill succeeded the new board has exactly `CellsToClear(d)` empty
      cells, and its solution is a valid grid; a failed fill never yields a game. */
  method NewGame(g: Game, d: Difficulty, shuffle: (Board, int, int) -> seq<int>, draws: seq<(int, int)>)
    returns (filled: bool, g': Option<Game>)
    requires forall b, r, c :: IsShuffle(shuffle(b, r, c))
    requires forall i :: 0 <= i < |draws| ==> 0 <= draws[i].0 < 9 && 0 <= draws[i].1 < 9
    ensures g'.Some? ==> Inv(g'.value) && g'.value.started && g'.value.running
    ensures g'.Some? ==> g'.value.board == g'.value.initial && g'.value.selected.None?
                         && g'.value.mistakes == 0 && g'.value.timer == 0
    ensures g'.Some? ==> g'.value.difficulty == g.difficulty
    ensures g'.Some? && filled ==> |EmptyCells(g'.value.initial)| == CellsToClear(d) && IsSolution(g'.value.solved)
    ensures filled ==> (g'.Some? <==> |DrawnPositions(draws)| >= CellsToClear(d))
    ensures !filled ==> g'.None?
  {
    var res;
    filled, res := GenerateBoard(CellsToClear(d), shuffle, draws);
    match res
    case None =>
      g' := None;
    case Some(p) =>
      g' := Some(StartNewGame(g, p));
  }

  /** `handleDifficultyChange(d)`: records the difficulty and starts a new game with it. */
  function ChangeDifficulty(g: Game, d: Difficulty, p: Puzzle): (g': Game)
    requires IsCarved(p)
    ensures Inv(g') && g'.difficulty == d
    ensures g' == StartNewGame(g.(difficulty := d), p)
  {
    StartNewGame(g.(difficulty := d), p)
  }

  /** `handleDifficultyChange(d)` together with the generator call of the new game:
      the game restarts under difficulty `d` on a board with exactly `CellsToClear(d)`
      empty cells when the fill succeeded. */
  method SwitchDifficulty(g: Game, d: Difficulty, shuffle: (Board, int, int) -> seq<int>, draws: seq<(int, int)>)
    returns (filled: bool, g': Option<Game>)
    requires forall b, r, c :: IsShuffle(shuffle(b, r, c))
    requires forall i :: 0 <= i < |draws| ==> 0 <= draws[i].0 < 9 && 0 <= draws[i].1 < 9
    ensures g'.Some? ==> Inv(g'.value) && g'.value.started && g'.value.running && g'.value.difficulty == d
    ensures g'.Some? && filled ==> |EmptyCells(g'.value.initial)| == CellsToClear(d) && IsSolution(g'.value.solved)
    ensures filled ==> (g'.Some? <==> |DrawnPositions(draws)| >= CellsToClear(d))
    ensures !filled ==> g'.None?
  {
    filled, g' := NewGame(g.(difficulty := d), d, shuffle, draws);
  }

  /** `handleCellClick(row, col)`: selects the cell when it is not fixed, otherwise
      nothing changes. */
  function CellClick(g: Game, row: int, col: int): (g': Game)
    requires Inv(g) && 0 <= row < 9 && 0 <= col < 9
    ensures Inv(g')
    ensures Editable(g, row, col) ==> g' == g.(selected := Some((row, col)))
    ensures !Editable(g, row, col) ==> g' == g
  {
    if g.initial[row][col] == Empty then g.(selected := Some((row, col))) else g
  }

  /** The entry of `number` is accepted: a cell is selected, a game is on and the
      selected cell is not fixed. */
  predicate Accepts(g: Game)
    requires Inv(g)
  {
    g.selected.Some? && g.started && g.initial[g.selected.value.0][g.selected.value.1] == Empty
  }

  /** `handleNumberInput(number)`. A rejected entry changes nothing. An accepted one
      writes the digit into the selected cell and nowhere else, counts a mistake
      exactly when the digit differs from the solution, and stops the game exactly
      when the new board has no `null` left, whether or not its entries are right.
      Fixed cells never change. */
  function NumberInput(g: Game, number: Digit): (g': Game)
    requires Inv(g)
    ensures Inv(g')
    ensures !Accepts(g) ==> g' == g
    ensures Accepts(g) ==>
      var (r, c) := g.selected.value;
      && g'.board[r][c] == Num(number)
      && (forall r2, c2 :: 0 <= r2 < 9 && 0 <= c2 < 9 && (r2, c2) != (r, c) ==> g'.board[r2][c2] == g.board[r2][c2])
      && (g'.mistakes == if g.solved[r][c] == Num(number) then g.mistakes else g.mistakes + 1)
      && (g'.running <==> g.running && !Full(g'.board))
      && g'.initial == g.initial && g'.solved == g.solved && g'.selected == g.selected
      && g'.timer == g.timer && g'.started && g'.difficulty == g.difficulty
  {
    if g.selected.None? || !g.started then g
    else
      var (row, col) := g.selected.value;
      if g.initial[row][col] != Empty then g
      else
        var newBoard := Set(g.board, row, col, Num(number));
        var mistakes := if g.solved[row][col] != Num(number) then g.mistakes + 1 else g.mistakes;
        var running := if Full(newBoard) then false else g.running;
        g.(board := newBoard, mistakes := mistakes, running := running)
  }

  /** One second of the interval timer: counts only while the game runs. */
  function Tick(g: Game): (g': Game)
    requires Inv(g)
    ensures Inv(g')
    ensures g'.timer == if g.running then g.timer + 1 else g.timer
    ensures g' == g.(timer := g'.timer)
  {
    if g.running then g.(timer := g.timer + 1) else g
  }

  /** A wrong entry into the last `null` cell still completes the game: completion only
      asks that no cell be `null`. */
  lemma WrongLastEntryCompletes(g: Game, number: Digit)
    requires Inv(g) && Accepts(g) && g.running
    requires EmptyCells(g.board) == {9 * g.selected.value.0 + g.selected.value.1}
    requires g.solved[g.selected.value.0][g.selected.value.1] != Num(number)
    ensures var g' := NumberInput(g, number);
            !g'.running && g'.mistakes == g.mistakes + 1
            && g'.board[g.selected.value.0][g.selected.value.1] != g.solved[g.selected.value.0][g.selected.value.1]
  {
    var (r, c) := g.selected.value;
    var g' := NumberInput(g, number);
    Position(r, c);
    forall r2, c2 | 0 <= r2 < 9 && 0 <= c2 < 9
      ensures g'.board[r2][c2] != Empty
    {
      Position(r2, c2);
      if (r2, c2) != (r, c) {
        assert 9 * r2 + c2 !in EmptyCells(g.board);
      }
    }
  }
}
