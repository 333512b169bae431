/** The play session of `WordSearchGame.js`: drag selection (`handleCellSelect`,
    `getSelectedCells`), release (`handleSelectionEnd`), the timer, the completion
    condition and the best-time rule. The generator itself is in module `WordSearch`. */
module WordSearchGame {
  import opened Wrappers
  import opened Seqs
  import opened GameCommon
  import opened WordSearch

  function Abs(d: int): nat {
    if d < 0 then -d else d
  }

  function Max(a: int, b: int): int {
    if a < b then b else a
  }

  function Min(a: int, b: int): int {
    if a < b then a else b
  }

  /** `Math.sign(d)` as a direction component. */
  function Sign(d: int): (s: Step)
    ensures Offset(s, Abs(d)) == d
    ensures s == Stay <==> d == 0
  {
    if d < 0 then Back else if d == 0 then Stay else Fwd
  }

  /** The opposite direction component. */
  function Flip(s: Step): (f: Step)
    ensures forall i :: Offset(f, i) == -Offset(s, i)
  {
    match s
    case Back => Fwd
    case Stay => Stay
    case Fwd => Back
  }

  /** The first `len` cells of the line that starts at `(p.x, p.y)` and steps by `(p.dx, p.dy)`. */
  function Line(p: Placement, len: nat): (cells: seq<(int, int)>)
    ensures |cells| == len
    ensures forall i :: 0 <= i < len ==> cells[i] == SpanCell(p, i)
  {
    seq(len, i => SpanCell(p, i))
  }

  /** `Math.sign(d)`: -1, 0 or 1. */
  function Signum(d: int): int {
    if d < 0 then -1 else if d == 0 then 0 else 1
  }

  /** `getSelectedCells(startRow, startCol, endRow, endCol)` as written: `max(|dr|, |dc|) + 1`
      cells from the start, cell `i` being `i` steps of `(sign dr, sign dc)` away from it. */
  function SelectedCells(start: (int, int), end: (int, int)): (cells: seq<(int, int)>)
    ensures |cells| == Max(Abs(end.0 - start.0), Abs(end.1 - start.1)) + 1
    ensures forall i :: 0 <= i < |cells| ==>
              cells[i] == (start.0 + Signum(end.0 - start.0) * i, start.1 + Signum(end.1 - start.1) * i)
    ensures cells[0] == start
  {
    var dr, dc := end.0 - start.0, end.1 - start.1;
    Line(Placement(start.0, start.1, Sign(dr), Sign(dc)), Max(Abs(dr), Abs(dc)) + 1)
  }

  /** The selection drawn by `getSelectedCells` ends on the pointer cell exactly when the
      drag is horizontal, vertical or at 45 degrees. */
  lemma SelectedEndsAtPointer(start: (int, int), end: (int, int))
    ensures var cells := SelectedCells(start, end);
            var dr, dc := end.0 - start.0, end.1 - start.1;
            cells[|cells| - 1] == end <==> dr == 0 || dc == 0 || Abs(dr) == Abs(dc)
  {
  }

  /** `x` lies between `a` and `b`, inclusive. */
  predicate Between(x: int, a: int, b: int) {
    Min(a, b) <= x <= Max(a, b)
  }

  /** Cell `c` lies in the rectangle spanned by cells `a` and `b`. */
  predicate InBox(c: (int, int), a: (int, int), b: (int, int)) {
    Between(c.0, a.0, b.0) && Between(c.1, a.1, b.1)
  }

  /** The corrected rasteriser: the drag snaps to the nearest of the eight directions
      (vertical when the row distance is more than twice the column distance, horizontal
      in the mirror case, diagonal otherwise) and never passes the pointer, so every cell
      lies in the rectangle spanned by the start and the pointer. */
  function SnapCells(start: (int, int), end: (int, int)): (cells: seq<(int, int)>)
    ensures |cells| >= 1 && cells[0] == start
    ensures forall i :: 0 <= i < |cells| ==> InBox(cells[i], start, end)
  {
    var dr, dc := end.0 - start.0, end.1 - start.1;
    if 2 * Abs(dc) < Abs(dr) then
      Line(Placement(start.0, start.1, Sign(dr), Stay), Abs(dr) + 1)
    else if 2 * Abs(dr) < Abs(dc) then
      Line(Placement(start.0, start.1, Stay, Sign(dc)), Abs(dc) + 1)
    else
      Line(Placement(start.0, start.1, Sign(dr), Sign(dc)), Min(Abs(dr), Abs(dc)) + 1)
  }

  /** On the eight exact directions the corrected rasteriser draws what `getSelectedCells` draws. */
  lemma SnapAgreesOnExactDrags(start: (int, int), end: (int, int))
    requires ExactDrag(start, end)
    ensures SnapCells(start, end) == SelectedCells(start, end)
  {
  }

  /** A span of a placed word is an exact drag: straight or at 45 degrees, both ways. */
  predicate ExactDrag(start: (int, int), end: (int, int)) {
    var dr, dc := end.0 - start.0, end.1 - start.1;
    dr == 0 || dc == 0 || Abs(dr) == Abs(dc)
  }

  /** Dragging from the first to the last letter of a span selects the span, and dragging
      back selects it in reverse: `getSelectedCells` as written. */
  lemma {:induction false} SelectedAlongSpan(p: Placement, len: nat)
    requires IsDirection(p) && len >= 1
    ensures SelectedCells((p.x, p.y), SpanCell(p, len - 1)) == Line(p, len)
    ensures var last := SpanCell(p, len - 1);
            SelectedCells(last, (p.x, p.y)) == Line(Placement(last.0, last.1, Flip(p.dx), Flip(p.dy)), len)
  {
    SelectedForward(p, len);
    SelectedBackward(p, len);
  }

  /** The corrected rasteriser selects the same cells along a span, since a span is an
      exact drag. */
  lemma {:induction false} SnapAlongSpan(p: Placement, len: nat)
    requires IsDirection(p) && len >= 1
    ensures SnapCells((p.x, p.y), SpanCell(p, len - 1)) == Line(p, len)
    ensures var last := SpanCell(p, len - 1);
            SnapCells(last, (p.x, p.y)) == Line(Placement(last.0, last.1, Flip(p.dx), Flip(p.dy)), len)
  {
    var first, last := (p.x, p.y), SpanCell(p, len - 1);
    assert ExactDrag(first, last) && ExactDrag(last, first);
    SnapAgreesOnExactDrags(first, last);
    SnapAgreesOnExactDrags(last, first);
    SelectedAlongSpan(p, len);
  }

  lemma {:induction false} SelectedForward(p: Placement, len: nat)
    requires IsDirection(p) && len >= 1
    ensures SelectedCells((p.x, p.y), SpanCell(p, len - 1)) == Line(p, len)
  {
    var fwd := SelectedCells((p.x, p.y), SpanCell(p, len - 1));
    assert |fwd| == len by {
      if len > 1 {
        assert p.dx != Stay || p.dy != Stay;
      }
    }
    forall i | 0 <= i < len ensures fwd[i] == SpanCell(p, i) {
      if len > 1 {
        assert Sign(len - 1) == Fwd;
      }
    }
  }

  lemma {:induction false} SelectedBackward(p: Placement, len: nat)
    requires IsDirection(p) && len >= 1
    ensures var last := SpanCell(p, len - 1);
            SelectedCells(last, (p.x, p.y)) == Line(Placement(last.0, last.1, Flip(p.dx), Flip(p.dy)), len)
  {
    var last := SpanCell(p, len - 1);
    var back := Placement(last.0, last.1, Flip(p.dx), Flip(p.dy));
    var bwd := SelectedCells(last, (p.x, p.y));
    assert |bwd| == len by {
      if len > 1 {
        assert p.dx != Stay || p.dy != Stay;
      }
    }
    forall i | 0 <= i < len ensures bwd[i] == SpanCell(back, i) {
      if len > 1 {
        assert Sign(-(len - 1)) == Back;
      }
    }
  }

  /** Reading the reverse of a line gives the cells of the line in reverse. */
  lemma ReversedLine(p: Placement, len: nat)
    ensures var last := SpanCell(p, len - 1);
            Line(Placement(last.0, last.1, Flip(p.dx), Flip(p.dy)), len) == Reverse(Line(p, len))
  {
  }

  /** `grid[row][col]` as it enters `join("")`: a letter, or `""` for a blank cell and for a
      column outside the row (`undefined`). */
  function CellText(row: seq<Cell>, col: int): (t: string)
    ensures |t| <= 1
    ensures 0 <= col < |row| && row[col].Letter? ==> t == [row[col].ch]
  {
    if 0 <= col < |row| then
      match row[col]
      case Blank => ""
      case Letter(ch) => [ch]
    else ""
  }

  /** The cell is inside the grid and holds a letter. */
  predicate HasLetter(grid: Grid, cell: (int, int)) {
    0 <= cell.0 < |grid| && 0 <= cell.1 < |grid[cell.0]| && grid[cell.0][cell.1].Letter?
  }

  /** `selection.cells.map(([row, col]) => grid[row][col]).join("")`. A row outside the grid
      makes `grid[row]` undefined and the lookup throws a `TypeError`. */
  function ReadCells(grid: Grid, cells: seq<(int, int)>): (r: Result<string, string>)
    ensures r.Err? <==> exists i :: 0 <= i < |cells| && !(0 <= cells[i].0 < |grid|)
    ensures (forall i :: 0 <= i < |cells| ==> HasLetter(grid, cells[i])) ==>
              r.Ok? && |r.value| == |cells| &&
              forall i :: 0 <= i < |cells| ==> r.value[i] == grid[cells[i].0][cells[i].1].ch
  {
    if |cells| == 0 then Ok("")
    else
      var c := cells[0];
      if !(0 <= c.0 < |grid|) then Err("TypeError")
      else
        var rest := ReadCells(grid, cells[1..]);
        if rest.Err? then
          assert exists i :: 0 <= i < |cells[1..]| && !(0 <= cells[1..][i].0 < |grid|);
          rest
        else
          assert forall i :: 0 <= i < |cells| ==> (i == 0 || cells[i] == cells[1..][i - 1]);
          Ok(CellText(grid[c.0], c.1) + rest.value)
  }

  /** Cells that all hold the letters of `word`, in order, read back as `word`. */
  lemma ReadLetters(grid: Grid, cells: seq<(int, int)>, word: string)
    requires |cells| == |word|
    requires forall i :: 0 <= i < |cells| ==> HasLetter(grid, cells[i]) && grid[cells[i].0][cells[i].1].ch == word[i]
    ensures ReadCells(grid, cells) == Ok(word)
  {
    var r := ReadCells(grid, cells);
    assert r.Ok? && |r.value| == |word|;
    assert r.value == word by {
      forall i | 0 <= i < |word| ensures r.value[i] == word[i] {
        assert r.value[i] == grid[cells[i].0][cells[i].1].ch;
      }
    }
  }

  /** A word spelled along a placement is read back from the placement's line, and its
      reverse from the reversed line. */
  lemma ReadSpan(grid: Grid, n: nat, word: string, p: Placement)
    requires IsGrid(grid, n) && Spells(grid, n, word, p)
    ensures ReadCells(grid, Line(p, |word|)) == Ok(word)
    ensures ReadCells(grid, Reverse(Line(p, |word|))) == Ok(Reverse(word))
  {
    var cells := Line(p, |word|);
    forall i | 0 <= i < |cells| ensures HasLetter(grid, cells[i]) && grid[cells[i].0][cells[i].1].ch == word[i] {
      assert cells[i] == SpanCell(p, i);
      assert At(grid, n, SpanCell(p, i)) == Letter(word[i]);
    }
    ReadLetters(grid, cells, word);
    var rcells := Reverse(cells);
    var rword := Reverse(word);
    forall i | 0 <= i < |rcells| ensures HasLetter(grid, rcells[i]) && grid[rcells[i].0][rcells[i].1].ch == rword[i] {
      assert rcells[i] == cells[|word| - 1 - i];
    }
    ReadLetters(grid, rcells, rword);
  }

  /** `selection`: the anchor cell, the cell under the pointer and the highlighted cells. */
  datatype Selection = Selection(start: Option<(int, int)>, current: Option<(int, int)>, cells: seq<(int, int)>)

  const NoSelection := Selection(None, None, [])

  /** The component state. `best` holds `bestTimes`. */
  datatype Game = Game(
    grid: Grid,
    words: seq<string>,
    found: seq<string>,
    selection: Selection,
    difficulty: Difficulty,
    timer: nat,
    started: bool,
    best: map<Difficulty, nat>)

  /** What every reachable state satisfies: a square grid of the difficulty's size once
      started, found words distinct placed words, and a selection anchored on a grid
      cell whose highlighted cells start at the anchor. The highlighted cells themselves
      may leave the grid (`OvershootLeavesGrid`). */
  predicate Inv(g: Game) {
    var n := |g.grid|;
    IsGrid(g.grid, n)
    && (g.started ==> n == GridSize(g.difficulty))
    && (!g.started ==> g.selection == NoSelection && g.found == [])
    && NoDup(g.words) && NoDup(g.found)
    && (forall w :: w in g.found ==> w in g.words)
    && (g.selection.start.None? <==> g.selection.current.None?)
    && (g.selection.start.None? ==> g.selection.cells == [])
    && (g.selection.start.Some? ==> InGrid(n, g.selection.start.value)
                                      && |g.selection.cells| >= 1 && g.selection.cells[0] == g.selection.start.value)
  }

  /** Every highlighted cell lies in the grid. */
  predicate SelectionInGrid(g: Game) {
    forall i :: 0 <= i < |g.selection.cells| ==> InGrid(|g.grid|, g.selection.cells[i])
  }

  /** The initial state (the saved best times are read from storage, which is not modelled). */
  function Mount(saved: map<Difficulty, nat>): (g: Game)
    ensures Inv(g) && !g.started && g.difficulty == Easy && g.best == saved
  {
    Game([], [], [], NoSelection, Easy, 0, false, saved)
  }

  /** "New Game": `initializeGame()` for the selected difficulty, with the random choices
      as parameters. The found list and the timer restart; the selection is left as it was. */
  method NewGame(g: Game, draw: (nat, nat) -> Draw, noise: (int, int) -> nat) returns (g': Game)
    requires forall w: nat, a: nat :: ValidDraw(draw(w, a), GridSize(g.difficulty))
    requires forall i, j :: noise(i, j) < 26
    ensures Inv(g) ==> Inv(g')
    ensures g'.started && g'.found == [] && g'.timer == 0
    ensures IsGrid(g'.grid, GridSize(g.difficulty))
    ensures forall r, c :: 0 <= r < GridSize(g.difficulty) && 0 <= c < GridSize(g.difficulty) ==>
              g'.grid[r][c].Letter? && IsUpper(g'.grid[r][c].ch)
    ensures IsSubseq(g'.words, WordList(g.difficulty)) && NoDup(g'.words)
    ensures exists ps :: AllSpelled(g'.grid, GridSize(g.difficulty), g'.words, ps)
    ensures g'.difficulty == g.difficulty && g'.best == g.best && g'.selection == g.selection
  {
    var grid, words, placed, placements, tries, tried := InitializeGame(g.difficulty, draw, noise);
    g' := g.(grid := grid, words := words, found := [], timer := 0, started := true);
    assert AllSpelled(g'.grid, GridSize(g.difficulty), g'.words, placements);
  }

  /** The difficulty `<select>`, disabled while a game is running. */
  function SetDifficulty(g: Game, d: Difficulty): (g': Game)
    ensures g.started ==> g' == g
    ensures !g.started ==> g' == g.(difficulty := d)
    ensures Inv(g) ==> Inv(g')
  {
    if g.started then g else g.(difficulty := d)
  }

  /** `handleCellSelect(row, col)`: nothing happens before a game starts; the first cell
      anchors the selection; a later cell becomes the pointer and the highlighted cells
      are `getSelectedCells` from the anchor: they start at the anchor, number one more
      than the larger of the row and column distances, and end on the pointer exactly
      when the drag is straight or at 45 degrees. Only the selection changes. */
  function CellSelect(g: Game, row: int, col: int): (g': Game)
    ensures g' == g.(selection := g'.selection)
    ensures !g.started ==> g' == g
    ensures g.started ==> g'.selection.current == Some((row, col))
    ensures g.started && g.selection.start.None? ==> g'.selection == Selection(Some((row, col)), Some((row, col)), [(row, col)])
    ensures g.started && g.selection.start.Some? ==>
              var a, cells := g.selection.start.value, g'.selection.cells;
              g'.selection.start == g.selection.start &&
              |cells| == Max(Abs(row - a.0), Abs(col - a.1)) + 1 && cells[0] == a &&
              (cells[|cells| - 1] == (row, col) <==> ExactDrag(a, (row, col)))
  {
    if !g.started then g
    else if g.selection.start.None? then
      g.(selection := Selection(Some((row, col)), Some((row, col)), [(row, col)]))
    else
      var a := g.selection.start.value;
      SelectedEndsAtPointer(a, (row, col));
      g.(selection := g.selection.(current := Some((row, col)), cells := SelectedCells(a, (row, col))))
  }

  /** `handleCellSelect(row, col)` with the corrected rasteriser `SnapCells`: a later cell
      highlights only cells in the rectangle spanned by the anchor and the pointer. */
  function CellSelectSnapped(g: Game, row: int, col: int): (g': Game)
    ensures g' == g.(selection := g'.selection)
    ensures !g.started ==> g' == g
    ensures g.started ==> g'.selection.current == Some((row, col))
    ensures g.started && g.selection.start.Some? ==>
              g'.selection.start == g.selection.start &&
              forall i :: 0 <= i < |g'.selection.cells| ==> InBox(g'.selection.cells[i], g.selection.start.value, (row, col))
    ensures g.started && g.selection.start.None? ==> g'.selection == Selection(Some((row, col)), Some((row, col)), [(row, col)])
  {
    if !g.started then g
    else if g.selection.start.None? then
      g.(selection := Selection(Some((row, col)), Some((row, col)), [(row, col)]))
    else
      g.(selection := g.selection.(current := Some((row, col)), cells := SnapCells(g.selection.start.value, (row, col))))
  }

  /** `onMouseEnter` of a cell: extends a selection in progress, otherwise does nothing. */
  function Enter(g: Game, row: int, col: int): (g': Game)
    ensures g.selection.start.None? ==> g' == g
    ensures g.selection.start.Some? ==> g' == CellSelect(g, row, col)
  {
    if g.selection.start.Some? then CellSelect(g, row, col) else g
  }

  /** Pressing or entering a grid cell keeps the invariant: the anchor is a grid cell and
      the highlighted cells start at it. */
  lemma CellSelectKeepsInv(g: Game, row: int, col: int)
    requires Inv(g) && InGrid(|g.grid|, (row, col))
    ensures Inv(CellSelect(g, row, col)) && Inv(Enter(g, row, col))
  {
  }

  /** With the corrected rasteriser, pressing or entering a grid cell also keeps every
      highlighted cell in the grid. */
  lemma SnappedSelectionStaysInGrid(g: Game, row: int, col: int)
    requires Inv(g) && SelectionInGrid(g) && InGrid(|g.grid|, (row, col))
    ensures SelectionInGrid(CellSelectSnapped(g, row, col))
  {
    var g' := CellSelectSnapped(g, row, col);
    var n := |g.grid|;
    if g.started && g.selection.start.Some? {
      var a := g.selection.start.value;
      forall i | 0 <= i < |g'.selection.cells| ensures InGrid(n, g'.selection.cells[i]) {
        assert InBox(g'.selection.cells[i], a, (row, col));
      }
    }
  }

  /** `handleSelectionEnd()` (mouse-up or leaving the grid): reads the selected string and
      adds it, or else its reverse, to the found words when it is a placed word not yet
      found, then clears the selection. A `TypeError` while reading is the `Err` result. */
  function SelectionEnd(g: Game): (r: Result<Game, string>)
    ensures g.selection.start.None? || g.selection.current.None? ==> r == Ok(g)
    ensures r.Err? <==> g.selection.start.Some? && g.selection.current.Some? &&
                        exists i :: 0 <= i < |g.selection.cells| && !(0 <= g.selection.cells[i].0 < |g.grid|)
    ensures r.Ok? && g.selection.start.Some? && g.selection.current.Some? ==>
              r.value == g.(found := r.value.found, selection := NoSelection) &&
              (r.value.found == g.found ||
               exists w :: w in g.words && w !in g.found && r.value.found == g.found + [w])
  {
    if g.selection.start.None? || g.selection.current.None? then Ok(g)
    else
      match ReadCells(g.grid, g.selection.cells)
      case Err(e) => Err(e)
      case Ok(s) =>
        var rev := Reverse(s);
        var found :=
          if s in g.words && s !in g.found then g.found + [s]
          else if rev in g.words && rev !in g.found then g.found + [rev]
          else g.found;
        Ok(g.(found := found, selection := NoSelection))
  }

  /** A release that does not throw keeps the invariant; one over highlighted cells that
      all lie in the grid never throws. */
  lemma {:induction false} SelectionEndKeepsInv(g: Game)
    requires Inv(g)
    ensures SelectionEnd(g).Ok? ==> Inv(SelectionEnd(g).value)
    ensures SelectionInGrid(g) ==> SelectionEnd(g).Ok?
  {
    var r := SelectionEnd(g);
    if g.selection.start.Some? && SelectionInGrid(g) {
      assert !exists i :: 0 <= i < |g.selection.cells| && !(0 <= g.selection.cells[i].0 < |g.grid|) by {
        forall i | 0 <= i < |g.selection.cells| ensures 0 <= g.selection.cells[i].0 < |g.grid| {
          assert InGrid(|g.grid|, g.selection.cells[i]);
        }
      }
    }
    if r.Ok? && g.selection.start.Some? {
      var g' := r.value;
      if g'.found != g.found {
        var w :| w in g.words && w !in g.found && g'.found == g.found + [w];
        assert NoDup(g'.found) by {
          forall i, j | 0 <= i < j < |g'.found| ensures g'.found[i] != g'.found[j] {
            if j == |g.found| {
              assert g'.found[i] == g.found[i];
            }
          }
        }
      }
    }
  }

  /** Releasing a selection that reads `s`. */
  lemma Release(g: Game, s: string)
    requires g.selection.start.Some? && g.selection.current.Some?
    requires ReadCells(g.grid, g.selection.cells) == Ok(s)
    ensures SelectionEnd(g) == Ok(g.(selection := NoSelection, found :=
              if s in g.words && s !in g.found then g.found + [s]
              else if Reverse(s) in g.words && Reverse(s) !in g.found then g.found + [Reverse(s)]
              else g.found))
  {
  }

  /** Dragging over a placed word from its first to its last letter and releasing finds it. */
  lemma {:induction false} DragFindsWord(g: Game, w: string, p: Placement)
    requires Inv(g) && g.started && g.selection == NoSelection
    requires IsDirection(p) && |w| >= 1 && Spells(g.grid, |g.grid|, w, p)
    requires w in g.words && w !in g.found
    ensures var last := SpanCell(p, |w| - 1);
            SelectionEnd(CellSelect(CellSelect(g, p.x, p.y), last.0, last.1))
              == Ok(g.(found := g.found + [w]))
  {
    var last := SpanCell(p, |w| - 1);
    var first := (p.x, p.y);
    var g2 := g.(selection := Selection(Some(first), Some(last), Line(p, |w|)));
    assert CellSelect(CellSelect(g, p.x, p.y), last.0, last.1) == g2 by {
      Drag(g, first, last);
      SelectedForward(p, |w|);
    }
    assert ReadCells(g2.grid, g2.selection.cells) == Ok(w) by {
      ReadSpan(g.grid, |g.grid|, w, p);
    }
    Release(g2, w);
  }

  /** Pressing on cell `a` and moving to cell `b` selects `getSelectedCells` from `a` to `b`. */
  lemma Drag(g: Game, a: (int, int), b: (int, int))
    requires g.started && g.selection == NoSelection
    ensures CellSelect(CellSelect(g, a.0, a.1), b.0, b.1) ==
            g.(selection := Selection(Some(a), Some(b), SelectedCells(a, b)))
  {
  }

  /** Dragging over a placed word from its last letter back to its first also finds it,
      unless its reverse is itself an unfound placed word, which is then found instead. */
  lemma {:induction false} ReverseDragFindsWord(g: Game, w: string, p: Placement)
    requires Inv(g) && g.started && g.selection == NoSelection
    requires IsDirection(p) && |w| >= 1 && Spells(g.grid, |g.grid|, w, p)
    requires w in g.words && w !in g.found
    ensures var last := SpanCell(p, |w| - 1);
            var r := SelectionEnd(CellSelect(CellSelect(g, last.0, last.1), p.x, p.y));
            r == Ok(g.(found := g.found + [Reverse(w)])) || r == Ok(g.(found := g.found + [w]))
    ensures var last := SpanCell(p, |w| - 1);
            Reverse(w) !in g.words ==>
              SelectionEnd(CellSelect(CellSelect(g, last.0, last.1), p.x, p.y)) == Ok(g.(found := g.found + [w]))
  {
    var last := SpanCell(p, |w| - 1);
    var first := (p.x, p.y);
    var g2 := g.(selection := Selection(Some(last), Some(first), Reverse(Line(p, |w|))));
    assert CellSelect(CellSelect(g, last.0, last.1), p.x, p.y) == g2 by {
      Drag(g, last, first);
      SelectedBackward(p, |w|);
      ReversedLine(p, |w|);
    }
    assert ReadCells(g2.grid, g2.selection.cells) == Ok(Reverse(w)) by {
      ReadSpan(g.grid, |g.grid|, w, p);
    }
    Release(g2, Reverse(w));
    ReverseReverse(w);
  }

  /** The "Found: k/n" counter reads complete exactly when every placed word has been found. */
  predicate Complete(g: Game) {
    |g.found| == |g.words|
  }

  lemma {:induction false} CompleteIffAllFound(g: Game)
    requires Inv(g)
    ensures Complete(g) <==> forall w :: w in g.words ==> w in g.found
  {
    var fs := set w | w in g.found;
    var ws := set w | w in g.words;
    DistinctCount(g.found);
    DistinctCount(g.words);
    assert fs <= ws;
    if Complete(g) {
      SubsetSameSize(fs, ws);
      forall w | w in g.words ensures w in g.found {
        assert w in ws;
      }
    }
    if forall w :: w in g.words ==> w in g.found {
      assert ws <= fs;
      assert fs == ws;
    }
  }

  /** One second of the timer effect: it runs while a started game is incomplete. */
  function Tick(g: Game): (g': Game)
    ensures g.started && |g.found| < |g.words| ==> g'.timer == g.timer + 1
    ensures !(g.started && |g.found| < |g.words|) ==> g' == g
    ensures g' == g.(timer := g'.timer)
  {
    if g.started && |g.found| < |g.words| then g.(timer := g.timer + 1) else g
  }

  /** The completion effect: a started, complete game records its time for the current
      difficulty when there is no best time yet, the best is 0, or the time is strictly
      smaller. A positive best thus becomes the minimum of itself and the time. */
  function RecordBest(g: Game): (g': Game)
    ensures g' == g.(best := g'.best)
    ensures !(g.started && Complete(g)) ==> g' == g
    ensures g.started && Complete(g) ==> g.difficulty in g'.best && g'.best[g.difficulty] <= g.timer
    ensures g.started && Complete(g) && (g.difficulty !in g.best || g.best[g.difficulty] == 0) ==>
              g'.best[g.difficulty] == g.timer
    ensures g.started && Complete(g) && g.difficulty in g.best && g.best[g.difficulty] > 0 ==>
              g'.best[g.difficulty] == Min(g.best[g.difficulty], g.timer)
    ensures forall d :: d != g.difficulty ==> (d in g'.best <==> d in g.best) && (d in g.best ==> g'.best[d] == g.best[d])
  {
    var d := g.difficulty;
    if g.started && Complete(g) && (d !in g.best || g.best[d] == 0 || g.timer < g.best[d]) then
      g.(best := g.best[d := g.timer])
    else g
  }

  /** Recording twice records nothing more: the stored best already satisfies the rule. */
  lemma RecordBestIdempotent(g: Game)
    ensures RecordBest(RecordBest(g)) == RecordBest(g)
  {
  }

  /** On an 8×8 grid, anchoring at (1, 0) and moving the pointer to (0, 7) makes
      `getSelectedCells` step up-right for eight cells, reaching row -1: releasing the
      mouse then throws. */
  lemma OvershootLeavesGrid(g: Game)
    requires g.started && g.selection == NoSelection && IsGrid(g.grid, 8)
    ensures SelectionEnd(CellSelect(CellSelect(g, 1, 0), 0, 7)).Err?
  {
    var g2 := CellSelect(CellSelect(g, 1, 0), 0, 7);
    Drag(g, (1, 0), (0, 7));
    assert SelectedCells((1, 0), (0, 7))[2] == (-1, 2);
    assert g2.selection.cells[2] == (-1, 2);
  }

  /** The same gesture with the corrected rasteriser selects row 1, which lies in the grid,
      and the release succeeds. */
  lemma SnappedGestureStaysInGrid(g: Game)
    requires Inv(g) && g.started && g.selection == NoSelection && |g.grid| == 8
    ensures var g2 := CellSelectSnapped(CellSelectSnapped(g, 1, 0), 0, 7);
            g2.selection.cells == Line(Placement(1, 0, Stay, Fwd), 8) &&
            SelectionEnd(g2).Ok?
  {
    var g1 := CellSelectSnapped(g, 1, 0);
    assert Inv(g1) && SelectionInGrid(g1);
    SnappedSelectionStaysInGrid(g1, 0, 7);
    var g2 := CellSelectSnapped(g1, 0, 7);
    assert Inv(g2);
    SelectionEndKeepsInv(g2);
  }
}
