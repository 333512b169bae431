/** The Sudoku engine of `SudokuGame.js`: the 9×9 board, the placement rule `isValid`,
    the randomised row-major backtracking `fillBoard` and the carving `generateBoard`.
    The random choices are parameters: `shuffle` gives the candidate order that
    `[...numbers].sort(() => Math.random() - 0.5)` would produce at a cell, and `draws`
    lists the coordinates `Math.floor(Math.random() * 9)` would produce while carving. */
module Sudoku {
  import opened Wrappers
  import opened Seqs

  /** A board cell: `null` or a number. */
  datatype Cell = Empty | Num(n: int)

  type Board = seq<seq<Cell>>

  /** The generated pair: the playable board and the solution it was carved from. */
  datatype Puzzle = Puzzle(initial: Board, solved: Board)

  /** Nine rows of nine cells. */
  predicate IsBoard(b: Board) {
    |b| == 9 && forall r :: 0 <= r < 9 ==> |b[r]| == 9
  }

  /** `b` with cell (r, c) replaced by `v`. */
  function Set(b: Board, r: int, c: int, v: Cell): (b': Board)
    requires IsBoard(b) && 0 <= r < 9 && 0 <= c < 9
    ensures IsBoard(b')
    ensures b'[r][c] == v
    ensures forall r2, c2 :: 0 <= r2 < 9 && 0 <= c2 < 9 && (r2, c2) != (r, c) ==> b'[r2][c2] == b[r2][c2]
  {
    b[r := b[r][c := v]]
  }

  /** Writing a cell and then writing back its old value restores the board. */
  lemma SetRestores(b: Board, r: int, c: int, v: Cell)
    requires IsBoard(b) && 0 <= r < 9 && 0 <= c < 9
    ensures Set(Set(b, r, c, v), r, c, b[r][c]) == b
  {
    assert b[r][c := v][c := b[r][c]] == b[r];
  }

  /** `createEmptyBoard()`: nine rows of nine `null` cells. */
  function CreateEmptyBoard(): (b: Board)
    ensures IsBoard(b)
    ensures forall r, c :: 0 <= r < 9 && 0 <= c < 9 ==> b[r][c] == Empty
  {
    seq(9, _ => seq(9, _ => Empty))
  }

  // ---------------------------------------------------------------------------
  // The placement rule

  /** `Math.floor(i / 3) * 3`: the first row (or column) of the box holding row (or column) `i`. */
  function BoxStart(i: int): (s: int)
    requires 0 <= i < 9
    ensures s in {0, 3, 6} && s <= i < s + 3
  {
    i / 3 * 3
  }

  predicate InRow(b: Board, r: int, n: int)
    requires IsBoard(b) && 0 <= r < 9
  {
    exists c :: 0 <= c < 9 && b[r][c] == Num(n)
  }

  predicate InColumn(b: Board, c: int, n: int)
    requires IsBoard(b) && 0 <= c < 9
  {
    exists r :: 0 <= r < 9 && b[r][c] == Num(n)
  }

  /** `n` occurs in the 3×3 box whose origin is (BoxStart(r), BoxStart(c)). */
  predicate InBox(b: Board, r: int, c: int, n: int)
    requires IsBoard(b) && 0 <= r < 9 && 0 <= c < 9
  {
    exists r2, c2 :: BoxStart(r) <= r2 < BoxStart(r) + 3 && BoxStart(c) <= c2 < BoxStart(c) + 3
                     && b[r2][c2] == Num(n)
  }

  /** The reference definition of the placement rule. */
  predicate Placeable(b: Board, r: int, c: int, n: int)
    requires IsBoard(b) && 0 <= r < 9 && 0 <= c < 9
  {
    !InRow(b, r, n) && !InColumn(b, c, n) && !InBox(b, r, c, n)
  }

  /** `isValid(board, row, col, num)`: scans the row, the column and the box and
      answers false exactly when `num` already occurs in one of them. */
  method IsValid(b: Board, row: int, col: int, num: int) returns (ok: bool)
    requires IsBoard(b) && 0 <= row < 9 && 0 <= col < 9
    ensures ok <==> Placeable(b, row, col, num)
  {
    for x := 0 to 9
      invariant forall c :: 0 <= c < x ==> b[row][c] != Num(num)
    {
      if b[row][x] == Num(num) {
        return false;
      }
    }
    for x := 0 to 9
      invariant forall r :: 0 <= r < x ==> b[r][col] != Num(num)
    {
      if b[x][col] == Num(num) {
        return false;
      }
    }
    var boxRow := BoxStart(row);
    var boxCol := BoxStart(col);
    for i := 0 to 3
      invariant forall r, c :: boxRow <= r < boxRow + i && boxCol <= c < boxCol + 3 ==> b[r][c] != Num(num)
    {
      var cells := b[boxRow + i];
      for j := 0 to 3
        invariant forall r, c :: boxRow <= r < boxRow + i && boxCol <= c < boxCol + 3 ==> b[r][c] != Num(num)
        invariant forall c :: boxCol <= c < boxCol + j ==> cells[c] != Num(num)
      {
        if cells[boxCol + j] == Num(num) {
          return false;
        }
      }
    }
    return true;
  }

  // ---------------------------------------------------------------------------
  // Solutions

  /** Distinct cells that share a row, a column or a 3×3 box. */
  predicate Peers(r: int, c: int, r2: int, c2: int) {
    (r, c) != (r2, c2) && (r == r2 || c == c2 || (r / 3 == r2 / 3 && c / 3 == c2 / 3))
  }

  /** Every filled cell holds a digit 1..9 that none of its peers repeats. */
  predicate Consistent(b: Board)
    requires IsBoard(b)
  {
    && (forall r, c :: 0 <= r < 9 && 0 <= c < 9 && b[r][c].Num? ==> 1 <= b[r][c].n <= 9)
    && (forall r, c, r2, c2 ::
          (0 <= r < 9 && 0 <= c < 9 && 0 <= r2 < 9 && 0 <= c2 < 9 && Peers(r, c, r2, c2) && b[r][c].Num?)
          ==> b[r2][c2] != b[r][c])
  }

  /** No cell is `null`. */
  predicate Full(b: Board)
    requires IsBoard(b)
  {
    forall r, c :: 0 <= r < 9 && 0 <= c < 9 ==> b[r][c] != Empty
  }

  /** A complete, valid Sudoku grid. */
  predicate IsSolution(b: Board) {
    IsBoard(b) && Full(b) && Consistent(b)
  }

  /** `b'` keeps every filled cell of `b`: only `null` cells may have changed. */
  predicate Extends(b: Board, b': Board)
    requires IsBoard(b) && IsBoard(b')
  {
    forall r, c :: 0 <= r < 9 && 0 <= c < 9 && b[r][c] != Empty ==> b'[r][c] == b[r][c]
  }

  /** The positions `9 * row + col` of the `null` cells. */
  function EmptyCells(b: Board): set<int>
    requires IsBoard(b)
  {
    set p | 0 <= p < 81 && b[p / 9][p % 9] == Empty
  }

  /** Row-major positions and coordinates correspond one to one. */
  lemma Position(r: int, c: int)
    requires 0 <= r < 9 && 0 <= c < 9
    ensures 0 <= 9 * r + c < 81 && (9 * r + c) / 9 == r && (9 * r + c) % 9 == c
  {
  }

  /** Filling a `null` cell removes exactly its position from the empty cells, and
      clearing a filled cell adds exactly its position. */
  lemma EmptyCellsAfterSet(b: Board, r: int, c: int, v: Cell)
    requires IsBoard(b) && 0 <= r < 9 && 0 <= c < 9
    ensures v != Empty ==> EmptyCells(Set(b, r, c, v)) == EmptyCells(b) - {9 * r + c}
    ensures v == Empty ==> EmptyCells(Set(b, r, c, v)) == EmptyCells(b) + {9 * r + c}
  {
    Position(r, c);
    var b': Board := Set(b, r, c, v);
    forall p | 0 <= p < 81
      ensures p != 9 * r + c ==> b'[p / 9][p % 9] == b[p / 9][p % 9]
    {
      if p != 9 * r + c {
        assert (p / 9, p % 9) != (r, c);
      }
    }
  }

  /** The positions `{0, ..., n - 1}`. */
  function Positions(n: nat): (s: set<int>)
    ensures |s| == n
    ensures forall p :: p in s <==> 0 <= p < n
  {
    if n == 0 then {} else Positions(n - 1) + {n - 1}
  }

  /** A board has at most 81 empty cells; the empty board has exactly 81 and a full one none. */
  lemma EmptyCellsBound(b: Board)
    requires IsBoard(b)
    ensures |EmptyCells(b)| <= 81
    ensures (forall r, c :: 0 <= r < 9 && 0 <= c < 9 ==> b[r][c] == Empty) ==> |EmptyCells(b)| == 81
    ensures Full(b) ==> EmptyCells(b) == {}
  {
    var all := Positions(81);
    assert EmptyCells(b) <= all;
    SubsetSize(EmptyCells(b), all);
    if forall r, c :: 0 <= r < 9 && 0 <= c < 9 ==> b[r][c] == Empty {
      assert EmptyCells(b) == all;
    }
  }

  /** Placing a digit that the placement rule admits into a `null` cell keeps a
      consistent board consistent. */
  lemma PlaceKeepsConsistent(b: Board, r: int, c: int, n: int)
    requires IsBoard(b) && 0 <= r < 9 && 0 <= c < 9 && 1 <= n <= 9
    requires Consistent(b) && b[r][c] == Empty && Placeable(b, r, c, n)
    ensures Consistent(Set(b, r, c, Num(n)))
  {
    var b': Board := Set(b, r, c, Num(n));
    forall r1, c1, r2, c2 | 0 <= r1 < 9 && 0 <= c1 < 9 && 0 <= r2 < 9 && 0 <= c2 < 9
        && Peers(r1, c1, r2, c2) && b'[r1][c1].Num?
      ensures b'[r2][c2] != b'[r1][c1]
    {
      if (r1, c1) == (r, c) {
        if r2 == r {
        } else if c2 == c {
        } else {
          assert BoxStart(r) <= r2 < BoxStart(r) + 3 && BoxStart(c) <= c2 < BoxStart(c) + 3;
        }
      } else if (r2, c2) == (r, c) {
        if r1 == r {
        } else if c1 == c {
        } else {
          assert BoxStart(r) <= r1 < BoxStart(r) + 3 && BoxStart(c) <= c1 < BoxStart(c) + 3;
        }
      }
    }
  }

  // ---------------------------------------------------------------------------
  // The backtracking fill

  /** The nine digits in the order `fillBoard` starts from. */
  const Digits: seq<int> := [1, 2, 3, 4, 5, 6, 7, 8, 9]

  /** A candidate order: some permutation of the nine digits. */
  predicate IsShuffle(s: seq<int>) {
    multiset(s) == multiset(Digits)
  }

  /** Every candidate of a shuffle is a digit 1..9. */
  lemma ShuffleDigits(s: seq<int>, i: int)
    requires IsShuffle(s) && 0 <= i < |s|
    ensures 1 <= s[i] <= 9
  {
    assert s[i] in multiset(s);
    assert s[i] in multiset(Digits);
  }

  /** The row-major scan of `fillBoard` for the first `null` cell; 81 when there is none. */
  method FirstEmpty(b: Board) returns (p: int)
    requires IsBoard(b)
    ensures 0 <= p <= 81
    ensures p < 81 ==> p in EmptyCells(b)
    ensures forall q :: 0 <= q < p ==> b[q / 9][q % 9] != Empty
  {
    p := 0;
    while p < 81 && b[p / 9][p % 9] != Empty
      invariant 0 <= p <= 81
      invariant forall q :: 0 <= q < p ==> b[q / 9][q % 9] != Empty
    {
      p := p + 1;
    }
  }

  /** A board whose 81 positions are all filled is full. */
  lemma NoEmptyIsFull(b: Board)
    requires IsBoard(b)
    requires forall q :: 0 <= q < 81 ==> b[q / 9][q % 9] != Empty
    ensures Full(b)
  {
    forall r, c | 0 <= r < 9 && 0 <= c < 9
      ensures b[r][c] != Empty
    {
      Position(r, c);
    }
  }

  /** A board that extends `b` with one `null` cell filled in, extended further, extends `b`. */
  lemma ExtendsAfterPlace(b: Board, r: int, c: int, n: int, filled: Board)
    requires IsBoard(b) && IsBoard(filled) && 0 <= r < 9 && 0 <= c < 9 && b[r][c] == Empty
    requires Extends(Set(b, r, c, Num(n)), filled)
    ensures Extends(b, filled)
  {
  }

  /** `fillBoard(board)`: finds the first `null` cell in row-major order, tries the
      candidates of `shuffle` there that `isValid` admits, recursing after each, and
      resets the cell to `null` when the recursion fails.
      On success the board is full and extends the input, and it is a valid Sudoku
      whenever the input was consistent; on failure the board equals the input.
      The recursion depth is bounded by the number of `null` cells. */
  method FillBoard(b: Board, shuffle: (Board, int, int) -> seq<int>) returns (ok: bool, b': Board)
    requires IsBoard(b)
    requires forall g, r, c :: IsShuffle(shuffle(g, r, c))
    ensures IsBoard(b')
    ensures ok ==> Full(b') && Extends(b, b')
    ensures ok && Consistent(b) ==> Consistent(b')
    ensures !ok ==> b' == b
    decreases |EmptyCells(b)|, 1
  {
    var p := FirstEmpty(b);
    if p == 81 {
      NoEmptyIsFull(b);
      return true, b;
    }
    var row, col := p / 9, p % 9;
    var candidates := shuffle(b, row, col);
    for i := 0 to |candidates| {
      ShuffleDigits(candidates, i);
      var found, filled := TryCandidate(b, row, col, candidates[i], shuffle);
      if found {
        return true, filled;
      }
    }
    return false, b;
  }

  /** One iteration of the candidate loop of `fillBoard` at the `null` cell (row, col):
      when `isValid` admits `num`, write it and recurse; when the recursion fails, reset
      the cell to `null`, which restores the board. */
  method TryCandidate(b: Board, row: int, col: int, num: int, shuffle: (Board, int, int) -> seq<int>)
    returns (ok: bool, b': Board)
    requires IsBoard(b) && 0 <= row < 9 && 0 <= col < 9 && b[row][col] == Empty && 1 <= num <= 9
    requires forall g, r, c :: IsShuffle(shuffle(g, r, c))
    ensures IsBoard(b')
    ensures ok ==> Full(b') && Extends(b, b')
    ensures ok && Consistent(b) ==> Consistent(b')
    ensures !ok ==> b' == b
    decreases |EmptyCells(b)|, 0
  {
    var valid := IsValid(b, row, col, num);
    if !valid {
      return false, b;
    }
    var cur := Set(b, row, col, Num(num));
    EmptyCellsAfterSet(b, row, col, Num(num));
    Position(row, col);
    assert 9 * row + col in EmptyCells(b);
    var found, filled := FillBoard(cur, shuffle);
    if found {
      ExtendsAfterPlace(b, row, col, num, filled);
      if Consistent(b) {
        PlaceKeepsConsistent(b, row, col, num);
      }
      return true, filled;
    }
    SetRestores(b, row, col, Num(num));
    return false, Set(filled, row, col, Empty);
  }

  /** `fillBoard` started on the empty board yields a valid Sudoku when it succeeds. */
  method FillEmptyBoard(shuffle: (Board, int, int) -> seq<int>) returns (ok: bool, solved: Board)
    requires forall g, r, c :: IsShuffle(shuffle(g, r, c))
    ensures ok ==> IsSolution(solved)
    ensures !ok ==> solved == CreateEmptyBoard()
  {
    var empty := CreateEmptyBoard();
    ok, solved := FillBoard(empty, shuffle);
  }

  // ---------------------------------------------------------------------------
  // Carving

  /** The row-major positions of the sampled cells. */
  function DrawnPositions(draws: seq<(int, int)>): set<int> {
    set j | 0 <= j < |draws| :: 9 * draws[j].0 + draws[j].1
  }

  /** The row-major positions of the sampled cells that hold a digit in `solved`:
      the cells the removal loop clears when it is asked for enough of them. */
  function DrawnFilled(solved: Board, draws: seq<(int, int)>): set<int>
    requires IsBoard(solved)
  {
    DrawnPositions(draws) - EmptyCells(solved)
  }

  /** Sampling more cells never forgets a cell already sampled. */
  lemma DrawnPositionsPrefix(draws: seq<(int, int)>, k: nat)
    requires k <= |draws|
    ensures DrawnPositions(draws[..k]) <= DrawnPositions(draws)
  {
    forall x | x in DrawnPositions(draws[..k]) ensures x in DrawnPositions(draws) {
      var j :| 0 <= j < k && x == 9 * draws[..k][j].0 + draws[..k][j].1;
      assert x == 9 * draws[j].0 + draws[j].1;
    }
  }

  /** The removal loop of `generateBoard(emptyCells)`: consumes the sampled
      coordinates in order, clearing each sampled cell that is neither recorded as
      removed nor already `null`, until `emptyCells` cells have been cleared. The
      cleared cells are the filled cells among the first `k` samples, for the first `k`
      that holds `emptyCells` of them. `None` means the samples hold fewer distinct
      filled cells than that (the source would keep sampling). The carved board agrees
      with the solution outside its `null` cells and has exactly `emptyCells` more of
      them; when that would exceed 81 no sample sequence finishes. */
  method Carve(solved: Board, emptyCells: nat, draws: seq<(int, int)>) returns (res: Option<Board>)
    requires IsBoard(solved)
    requires forall i :: 0 <= i < |draws| ==> 0 <= draws[i].0 < 9 && 0 <= draws[i].1 < 9
    ensures res.None? <==> |DrawnFilled(solved, draws)| < emptyCells
    ensures res.Some? ==> IsBoard(res.value)
    ensures res.Some? ==> forall r, c :: 0 <= r < 9 && 0 <= c < 9 ==>
                            res.value[r][c] == solved[r][c] || res.value[r][c] == Empty
    ensures res.Some? ==> exists k :: 0 <= k <= |draws| && |DrawnFilled(solved, draws[..k])| == emptyCells
                            && EmptyCells(res.value) == EmptyCells(solved) + DrawnFilled(solved, draws[..k])
    ensures res.Some? ==> |EmptyCells(res.value)| == |EmptyCells(solved)| + emptyCells
    ensures |EmptyCells(solved)| + emptyCells > 81 ==> res.None?
  {
    var initial := solved;
    var cellsToRemove := emptyCells;
    var removed: set<int> := {};
    var i := 0;
    assert draws[..0] == [];
    while cellsToRemove > 0 && i < |draws|
      invariant Removing(solved, emptyCells, draws, initial, removed, cellsToRemove, i)
    {
      initial, removed, cellsToRemove := RemoveNext(solved, emptyCells, draws, initial, removed, cellsToRemove, i);
      i := i + 1;
    }
    res := if cellsToRemove > 0 then None else Some(initial);
    CarveDone(solved, emptyCells, draws, initial, removed, cellsToRemove, i, res);
  }

  /** One pass of the removal loop: the sampled cell is cleared when it is not recorded
      as removed and still holds a digit. */
  method RemoveNext(solved: Board, emptyCells: nat, draws: seq<(int, int)>, initial: Board, removed: set<int>,
                    cellsToRemove: nat, i: nat)
    returns (initial': Board, removed': set<int>, cellsToRemove': nat)
    requires IsBoard(solved)
    requires forall j :: 0 <= j < |draws| ==> 0 <= draws[j].0 < 9 && 0 <= draws[j].1 < 9
    requires Removing(solved, emptyCells, draws, initial, removed, cellsToRemove, i)
    requires i < |draws| && cellsToRemove > 0
    ensures Removing(solved, emptyCells, draws, initial', removed', cellsToRemove', i + 1)
    ensures cellsToRemove' <= cellsToRemove
  {
    if 9 * draws[i].0 + draws[i].1 !in removed && initial[draws[i].0][draws[i].1] != Empty {
      Cleared(solved, emptyCells, draws, initial, removed, cellsToRemove, i);
      initial' := Set(initial, draws[i].0, draws[i].1, Empty);
      removed' := removed + {9 * draws[i].0 + draws[i].1};
      cellsToRemove' := cellsToRemove - 1;
    } else {
      Skipped(solved, emptyCells, draws, initial, removed, cellsToRemove, i);
      initial', removed', cellsToRemove' := initial, removed, cellsToRemove;
    }
  }

  /** A sampled cell that still holds a digit and is not recorded is cleared. */
  lemma Cleared(solved: Board, emptyCells: nat, draws: seq<(int, int)>, initial: Board, removed: set<int>,
                cellsToRemove: nat, i: nat)
    requires IsBoard(solved)
    requires forall j :: 0 <= j < |draws| ==> 0 <= draws[j].0 < 9 && 0 <= draws[j].1 < 9
    requires Removing(solved, emptyCells, draws, initial, removed, cellsToRemove, i)
    requires i < |draws| && cellsToRemove > 0
    requires 9 * draws[i].0 + draws[i].1 !in removed && initial[draws[i].0][draws[i].1] != Empty
    ensures Removing(solved, emptyCells, draws, Set(initial, draws[i].0, draws[i].1, Empty),
                     removed + {9 * draws[i].0 + draws[i].1}, cellsToRemove - 1, i + 1)
  {
    ClearStep(solved, initial, removed, draws[i].0, draws[i].1);
    DrawStep(solved, initial, removed, draws, i);
  }

  /** Any other sample changes nothing. */
  lemma Skipped(solved: Board, emptyCells: nat, draws: seq<(int, int)>, initial: Board, removed: set<int>,
                cellsToRemove: nat, i: nat)
    requires IsBoard(solved)
    requires forall j :: 0 <= j < |draws| ==> 0 <= draws[j].0 < 9 && 0 <= draws[j].1 < 9
    requires Removing(solved, emptyCells, draws, initial, removed, cellsToRemove, i)
    requires i < |draws|
    requires !(9 * draws[i].0 + draws[i].1 !in removed && initial[draws[i].0][draws[i].1] != Empty)
    ensures Removing(solved, emptyCells, draws, initial, removed, cellsToRemove, i + 1)
  {
    DrawStep(solved, initial, removed, draws, i);
  }

  /** The removal loop's invariant after `i` samples: the board is carved from the
      solution, every removal was sampled, and every sampled filled cell was removed. */
  predicate Removing(solved: Board, emptyCells: nat, draws: seq<(int, int)>, initial: Board, removed: set<int>,
                     cellsToRemove: nat, i: nat)
    requires IsBoard(solved)
    requires forall j :: 0 <= j < |draws| ==> 0 <= draws[j].0 < 9 && 0 <= draws[j].1 < 9
  {
    && i <= |draws|
    && IsBoard(initial) && Carving(solved, initial, removed)
    && |removed| + cellsToRemove == emptyCells
    && removed <= DrawnPositions(draws[..i])
    && SampledRemoved(solved, draws, i, removed)
  }

  /** Every filled cell among the first `i` samples is recorded as removed. */
  predicate SampledRemoved(solved: Board, draws: seq<(int, int)>, i: nat, removed: set<int>)
    requires IsBoard(solved)
    requires forall j :: 0 <= j < |draws| ==> 0 <= draws[j].0 < 9 && 0 <= draws[j].1 < 9
  {
    forall j :: 0 <= j < i && j < |draws| && solved[draws[j].0][draws[j].1] != Empty ==>
      9 * draws[j].0 + draws[j].1 in removed
  }

  /** One sample keeps the sampled cells and the removals in step: the removals grow by
      the sampled cell exactly when the loop clears it. */
  lemma DrawStep(solved: Board, initial: Board, removed: set<int>, draws: seq<(int, int)>, i: nat)
    requires IsBoard(solved) && IsBoard(initial) && Carving(solved, initial, removed)
    requires forall j :: 0 <= j < |draws| ==> 0 <= draws[j].0 < 9 && 0 <= draws[j].1 < 9
    requires i < |draws| && removed <= DrawnPositions(draws[..i]) && SampledRemoved(solved, draws, i, removed)
    ensures var cell := draws[i];
            var pos := 9 * cell.0 + cell.1;
            var after := if pos !in removed && initial[cell.0][cell.1] != Empty then removed + {pos} else removed;
            after <= DrawnPositions(draws[..i + 1]) && SampledRemoved(solved, draws, i + 1, after)
  {
    var cell := draws[i];
    var pos := 9 * cell.0 + cell.1;
    DrawnPositionsPrefix(draws[..i + 1], i);
    assert draws[..i + 1][..i] == draws[..i];
    assert pos in DrawnPositions(draws[..i + 1]) by {
      assert draws[..i + 1][i] == cell;
    }
    Position(cell.0, cell.1);
    if initial[cell.0][cell.1] == Empty && solved[cell.0][cell.1] != Empty {
      assert pos in EmptyCells(initial);
      assert pos !in EmptyCells(solved);
    }
  }

  /** The loop's record of removals is exactly the filled cells sampled so far. */
  lemma RemovedAreDrawnFilled(solved: Board, initial: Board, removed: set<int>, draws: seq<(int, int)>, i: nat)
    requires IsBoard(solved) && IsBoard(initial) && Carving(solved, initial, removed)
    requires forall j :: 0 <= j < |draws| ==> 0 <= draws[j].0 < 9 && 0 <= draws[j].1 < 9
    requires i <= |draws| && removed <= DrawnPositions(draws[..i]) && SampledRemoved(solved, draws, i, removed)
    ensures removed == DrawnFilled(solved, draws[..i])
  {
    forall x | x in DrawnFilled(solved, draws[..i]) ensures x in removed {
      var j :| 0 <= j < i && x == 9 * draws[..i][j].0 + draws[..i][j].1;
      Position(draws[j].0, draws[j].1);
      assert solved[draws[j].0][draws[j].1] != Empty;
    }
  }

  /** The removal loop's exit establishes `Carve`'s contract. */
  lemma CarveDone(solved: Board, emptyCells: nat, draws: seq<(int, int)>, initial: Board, removed: set<int>,
                  cellsToRemove: nat, i: nat, res: Option<Board>)
    requires IsBoard(solved)
    requires forall j :: 0 <= j < |draws| ==> 0 <= draws[j].0 < 9 && 0 <= draws[j].1 < 9
    requires Removing(solved, emptyCells, draws, initial, removed, cellsToRemove, i)
    requires cellsToRemove == 0 || i == |draws|
    requires res == if cellsToRemove > 0 then None else Some(initial)
    ensures res.None? <==> |DrawnFilled(solved, draws)| < emptyCells
    ensures res.Some? ==> IsBoard(res.value)
    ensures res.Some? ==> forall r, c :: 0 <= r < 9 && 0 <= c < 9 ==>
                            res.value[r][c] == solved[r][c] || res.value[r][c] == Empty
    ensures res.Some? ==> exists k :: 0 <= k <= |draws| && |DrawnFilled(solved, draws[..k])| == emptyCells
                            && EmptyCells(res.value) == EmptyCells(solved) + DrawnFilled(solved, draws[..k])
    ensures res.Some? ==> |EmptyCells(res.value)| == |EmptyCells(solved)| + emptyCells
    ensures |EmptyCells(solved)| + emptyCells > 81 ==> res.None?
  {
    EmptyCellsBound(initial);
    RemovedAreDrawnFilled(solved, initial, removed, draws, i);
    DrawnPositionsPrefix(draws, i);
    if cellsToRemove > 0 {
      assert draws[..i] == draws;
    } else {
      SubsetSize(removed, DrawnFilled(solved, draws));
    }
  }

  /** The carving loop's invariant: the board agrees with the solution except at `null`
      cells, which are the solution's own plus the recorded removals. */
  predicate Carving(solved: Board, initial: Board, removed: set<int>)
    requires IsBoard(solved) && IsBoard(initial)
  {
    && (forall r, c :: 0 <= r < 9 && 0 <= c < 9 ==> initial[r][c] == solved[r][c] || initial[r][c] == Empty)
    && removed !! EmptyCells(solved)
    && EmptyCells(initial) == EmptyCells(solved) + removed
  }

  /** Clearing a filled, unrecorded cell records exactly one more removal. */
  lemma ClearStep(solved: Board, initial: Board, removed: set<int>, row: int, col: int)
    requires IsBoard(solved) && IsBoard(initial) && Carving(solved, initial, removed)
    requires 0 <= row < 9 && 0 <= col < 9 && 9 * row + col !in removed && initial[row][col] != Empty
    ensures Carving(solved, Set(initial, row, col, Empty), removed + {9 * row + col})
    ensures |removed + {9 * row + col}| == |removed| + 1
  {
    EmptyCellsAfterSet(initial, row, col, Empty);
    Position(row, col);
    assert 9 * row + col !in EmptyCells(initial);
  }

  /** `generateBoard(emptyCells)`: fills the empty board, then carves it. `filled`
      reports whether the fill succeeded, which the source does not look at: after a
      failed fill the solution is the empty board and carving can never finish. */
  method GenerateBoard(emptyCells: nat, shuffle: (Board, int, int) -> seq<int>, draws: seq<(int, int)>)
    returns (filled: bool, res: Option<Puzzle>)
    requires forall g, r, c :: IsShuffle(shuffle(g, r, c))
    requires forall i :: 0 <= i < |draws| ==> 0 <= draws[i].0 < 9 && 0 <= draws[i].1 < 9
    ensures res.Some? ==> IsBoard(res.value.initial) && IsBoard(res.value.solved)
    ensures res.Some? ==> forall r, c :: 0 <= r < 9 && 0 <= c < 9 ==>
              res.value.initial[r][c] == res.value.solved[r][c] || res.value.initial[r][c] == Empty
    ensures res.Some? && filled ==> IsSolution(res.value.solved)
    ensures res.Some? && filled ==> |EmptyCells(res.value.initial)| == emptyCells
    ensures filled ==> (res.Some? <==> |DrawnPositions(draws)| >= emptyCells)
    ensures res.Some? && filled ==> exists k :: 0 <= k <= |draws| && |DrawnPositions(draws[..k])| == emptyCells
                                       && EmptyCells(res.value.initial) == DrawnPositions(draws[..k])
    ensures !filled ==> (res.None? <==> emptyCells > 0)
    ensures emptyCells > 81 ==> res.None?
  {
    var solved;
    filled, solved := FillEmptyBoard(shuffle);
    EmptyCellsBound(solved);
    var initial := Carve(solved, emptyCells, draws);
    if filled {
      EmptyCellsBound(solved);
    }
    if initial.None? {
      return filled, None;
    }
    return filled, Some(Puzzle(initial.value, solved));
  }

  // ---------------------------------------------------------------------------
  // Rows, columns and boxes of a solution

  /** Row `r` of a full board. */
  function RowOf(b: Board, r: int): (s: seq<int>)
    requires IsBoard(b) && Full(b) && 0 <= r < 9
    ensures |s| == 9 && forall c :: 0 <= c < 9 ==> b[r][c] == Num(s[c])
  {
    seq(9, c requires 0 <= c < 9 => b[r][c].n)
  }

  /** Column `c` of a full board. */
  function ColumnOf(b: Board, c: int): (s: seq<int>)
    requires IsBoard(b) && Full(b) && 0 <= c < 9
    ensures |s| == 9 && forall r :: 0 <= r < 9 ==> b[r][c] == Num(s[r])
  {
    seq(9, r requires 0 <= r < 9 => b[r][c].n)
  }

  /** Box `k` (numbered row-major) of a full board, read row-major. */
  function BoxOf(b: Board, k: int): (s: seq<int>)
    requires IsBoard(b) && Full(b) && 0 <= k < 9
    ensures |s| == 9
    ensures forall i :: 0 <= i < 9 ==> b[k / 3 * 3 + i / 3][k % 3 * 3 + i % 3] == Num(s[i])
  {
    seq(9, i requires 0 <= i < 9 => b[k / 3 * 3 + i / 3][k % 3 * 3 + i % 3].n)
  }

  /** Nine numbers that are pairwise distinct and all digits. */
  predicate IsDigitPermutation(s: seq<int>) {
    && |s| == 9 && NoDup(s)
    && (forall i :: 0 <= i < 9 ==> 1 <= s[i] <= 9)
    && (forall d :: 1 <= d <= 9 ==> d in s)
  }

  /** Nine distinct digits are a permutation of 1..9 (pigeonhole). */
  lemma NineDistinctDigits(s: seq<int>)
    requires |s| == 9 && NoDup(s) && forall i :: 0 <= i < 9 ==> 1 <= s[i] <= 9
    ensures IsDigitPermutation(s)
  {
    DistinctCount(s);
    var elems := set x | x in s;
    var digits := {1, 2, 3, 4, 5, 6, 7, 8, 9};
    assert elems <= digits;
    assert |digits| == 9;
    SubsetSameSize(elems, digits);
    forall d | 1 <= d <= 9 ensures d in s {
      assert d in digits;
      assert d in elems;
    }
  }

  /** Every row, column and box of a valid full Sudoku is a permutation of 1..9. */
  lemma SolutionUnits(b: Board)
    requires IsSolution(b)
    ensures forall r :: 0 <= r < 9 ==> IsDigitPermutation(RowOf(b, r))
    ensures forall c :: 0 <= c < 9 ==> IsDigitPermutation(ColumnOf(b, c))
    ensures forall k :: 0 <= k < 9 ==> IsDigitPermutation(BoxOf(b, k))
  {
    forall r | 0 <= r < 9 ensures IsDigitPermutation(RowOf(b, r)) {
      var s := RowOf(b, r);
      forall i, j | 0 <= i < j < 9 ensures s[i] != s[j] {
        assert Peers(r, i, r, j);
      }
      NineDistinctDigits(s);
    }
    forall c | 0 <= c < 9 ensures IsDigitPermutation(ColumnOf(b, c)) {
      var s := ColumnOf(b, c);
      forall i, j | 0 <= i < j < 9 ensures s[i] != s[j] {
        assert Peers(i, c, j, c);
      }
      NineDistinctDigits(s);
    }
    forall k | 0 <= k < 9 ensures IsDigitPermutation(BoxOf(b, k)) {
      var s := BoxOf(b, k);
      forall i, j | 0 <= i < j < 9 ensures s[i] != s[j] {
        BoxCellsArePeers(k, i, j);
      }
      NineDistinctDigits(s);
    }
  }

  /** Two distinct cells of the same box are peers. */
  lemma BoxCellsArePeers(k: int, i: int, j: int)
    requires 0 <= k < 9 && 0 <= i < j < 9
    ensures Peers(k / 3 * 3 + i / 3, k % 3 * 3 + i % 3, k / 3 * 3 + j / 3, k % 3 * 3 + j % 3)
  {
    var a, c := k / 3, k % 3;
    assert (a * 3 + i / 3) / 3 == a;
    assert (a * 3 + j / 3) / 3 == a;
    assert (c * 3 + i % 3) / 3 == c;
    assert (c * 3 + j % 3) / 3 == c;
    assert i == 3 * (i / 3) + i % 3 && j == 3 * (j / 3) + j % 3;
  }
}
