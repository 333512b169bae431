/** The puzzle generator of `WordSearchGame.js`: the word banks, grid sizes and
    direction vectors, `canPlaceWord`, `placeWord`, the bounded Monte-Carlo placement
    loop of `initializeGame` and its noise fill. The random choices are parameters:
    `draw(w, a)` is the direction index and start cell chosen at attempt `a` for the
    `w`-th word of the bank, and `noise(i, j)` the letter offset chosen for cell (i, j). */
module WordSearch {
  import opened Seqs
  import opened GameCommon

  /** `WORD_LISTS[difficulty]`. */
  function WordList(d: Difficulty): seq<string> {
    match d
    case Easy => ["CAT", "DOG", "RAT", "BAT", "PIG"]
    case Medium => ["PYTHON", "REACT", "NEXT", "NODE", "CODE"]
    case Hard => ["JAVASCRIPT", "TYPESCRIPT", "PROGRAMMING", "DEVELOPER", "SOFTWARE"]
  }

  /** `GRID_SIZES[difficulty]`. */
  function GridSize(d: Difficulty): nat {
    match d
    case Easy => 8
    case Medium => 10
    case Hard => 12
  }

  /** A component of a direction vector: -1, 0 or +1. */
  datatype Step = Back | Stay | Fwd

  /** `d * i` for a direction component `d`. */
  function Offset(d: Step, i: int): int {
    match d
    case Back => -i
    case Stay => 0
    case Fwd => i
  }

  /** `DIRECTIONS`: right [0, 1], down [1, 0], down-right [1, 1] and up-right [-1, 1],
      as (row step, column step). */
  const Directions: seq<(Step, Step)> := [(Stay, Fwd), (Fwd, Stay), (Fwd, Fwd), (Back, Fwd)]

  /** The attempt budget of each word. */
  const MaxAttempts: nat := 100

  predicate IsUpper(c: char) {
    'A' <= c <= 'Z'
  }

  predicate IsUpperWord(w: string) {
    forall i :: 0 <= i < |w| ==> IsUpper(w[i])
  }

  /** Every bank holds distinct non-empty upper-case words, each short enough for its grid. */
  lemma WordListsWellFormed(d: Difficulty)
    ensures NoDup(WordList(d))
    ensures forall i :: 0 <= i < |WordList(d)| ==>
              IsUpperWord(WordList(d)[i]) && 0 < |WordList(d)[i]| <= GridSize(d)
  {
    var bank := WordList(d);
    forall i | 0 <= i < |bank| ensures IsUpperWord(bank[i]) && 0 < |bank[i]| <= GridSize(d) {
      WordWellFormed(d, i);
    }
    forall i, j | 0 <= i < j < |bank| ensures bank[i] != bank[j] {
      WordsDiffer(d, i, j);
    }
  }

  lemma WordWellFormed(d: Difficulty, i: nat)
    requires i < |WordList(d)|
    ensures IsUpperWord(WordList(d)[i]) && 0 < |WordList(d)[i]| <= GridSize(d)
  {
  }

  /** Two words of a bank differ in their first or second letter. */
  lemma WordsDiffer(d: Difficulty, i: nat, j: nat)
    requires i < j < |WordList(d)|
    ensures WordList(d)[i] != WordList(d)[j]
  {
    var a, b := WordList(d)[i], WordList(d)[j];
    assert |a| >= 2 && |b| >= 2;
    assert a[0] != b[0] || a[1] != b[1];
  }

  /** A grid cell: `""` or a one-letter string. */
  datatype Cell = Blank | Letter(ch: char)

  type Grid = seq<seq<Cell>>

  /** An n×n grid. */
  predicate IsGrid(g: Grid, n: nat) {
    |g| == n && forall r :: 0 <= r < n ==> |g[r]| == n
  }

  /** `Array(n).fill().map(() => Array(n).fill(""))`. */
  function EmptyGrid(n: nat): (g: Grid)
    ensures IsGrid(g, n)
    ensures forall r, c :: 0 <= r < n && 0 <= c < n ==> g[r][c] == Blank
  {
    seq(n, _ => seq(n, _ => Blank))
  }

  /** Every cell is blank or an upper-case letter. */
  predicate UpperOrBlank(g: Grid, n: nat)
    requires IsGrid(g, n)
  {
    forall r, c :: 0 <= r < n && 0 <= c < n ==> g[r][c] == Blank || IsUpper(g[r][c].ch)
  }

  /** Where a word goes: its first cell (row `x`, column `y`) and its step (`dx`, `dy`).
      The source does not keep this record; the model keeps it to state what was placed. */
  datatype Placement = Placement(x: int, y: int, dx: Step, dy: Step)

  /** The cell holding letter `i` of a word placed at `p`: `(x + dx * i, y + dy * i)`. */
  function SpanCell(p: Placement, i: int): (int, int) {
    (p.x + Offset(p.dx, i), p.y + Offset(p.dy, i))
  }

  predicate InGrid(n: nat, cell: (int, int)) {
    0 <= cell.0 < n && 0 <= cell.1 < n
  }

  function At(g: Grid, n: nat, cell: (int, int)): Cell
    requires IsGrid(g, n) && InGrid(n, cell)
  {
    g[cell.0][cell.1]
  }

  /** `grid[x][y] = v`. */
  function Write(g: Grid, n: nat, cell: (int, int), v: Cell): (g': Grid)
    requires IsGrid(g, n) && InGrid(n, cell)
    ensures IsGrid(g', n) && At(g', n, cell) == v
    ensures forall r, c :: 0 <= r < n && 0 <= c < n && (r, c) != cell ==> g'[r][c] == g[r][c]
  {
    g[cell.0 := g[cell.0][cell.1 := v]]
  }

  /** The step of `p` is one of `DIRECTIONS`. */
  predicate IsDirection(p: Placement) {
    (p.dx, p.dy) in Directions
  }

  /** `(r, c)` is one of the first `len` cells of the span of `p`. */
  predicate OnSpan(p: Placement, len: int, cell: (int, int)) {
    exists i :: 0 <= i < len && SpanCell(p, i) == cell
  }

  /** Cell `i` of the span lies in the grid and is blank or already holds `word[i]`. */
  predicate Admits(g: Grid, n: nat, word: string, p: Placement, i: int)
    requires IsGrid(g, n) && 0 <= i < |word|
  {
    InGrid(n, SpanCell(p, i)) && (At(g, n, SpanCell(p, i)) == Blank || At(g, n, SpanCell(p, i)) == Letter(word[i]))
  }

  /** The reference placement rule: the last cell of the span lies in the grid and every
      cell of the span is blank or already holds the required letter. */
  predicate Fits(g: Grid, n: nat, word: string, p: Placement)
    requires IsGrid(g, n)
  {
    InGrid(n, SpanCell(p, |word| - 1)) && forall i :: 0 <= i < |word| ==> Admits(g, n, word, p, i)
  }

  /** Reading the grid along the span of `p` gives `word`. */
  predicate Spells(g: Grid, n: nat, word: string, p: Placement)
    requires IsGrid(g, n)
  {
    forall i :: 0 <= i < |word| ==> InGrid(n, SpanCell(p, i)) && At(g, n, SpanCell(p, i)) == Letter(word[i])
  }

  /** With its first and last cells in the grid, a whole span lies in the grid. */
  lemma SpanInGrid(n: nat, len: int, p: Placement, i: int)
    requires IsDirection(p) && InGrid(n, (p.x, p.y)) && InGrid(n, SpanCell(p, len - 1)) && 0 <= i < len
    ensures InGrid(n, SpanCell(p, i))
  {
  }

  /** A span never visits a cell twice. */
  lemma SpanInjective(p: Placement, i: int, j: int)
    requires IsDirection(p) && SpanCell(p, i) == SpanCell(p, j)
    ensures i == j
  {
  }

  /** The first `i` letters of `word` are spelled along the span of `p`. */
  predicate SpellsPrefix(g: Grid, n: nat, word: string, p: Placement, i: int)
    requires IsGrid(g, n) && 0 <= i <= |word|
  {
    forall j :: 0 <= j < i ==> InGrid(n, SpanCell(p, j)) && At(g, n, SpanCell(p, j)) == Letter(word[j])
  }

  /** Writing letter `i` at its cell extends a spelled prefix by one. */
  lemma PrefixKept(g: Grid, g': Grid, n: nat, word: string, p: Placement, i: int)
    requires IsGrid(g, n) && IsDirection(p) && 0 <= i < |word|
    requires InGrid(n, SpanCell(p, i)) && SpellsPrefix(g, n, word, p, i)
    requires g' == Write(g, n, SpanCell(p, i), Letter(word[i]))
    ensures IsGrid(g', n) && SpellsPrefix(g', n, word, p, i + 1)
  {
    forall j | 0 <= j < i + 1
      ensures InGrid(n, SpanCell(p, j)) && At(g', n, SpanCell(p, j)) == Letter(word[j])
    {
      if j < i {
        var other := SpanCell(p, j);
        if other == SpanCell(p, i) {
          SpanInjective(p, i, j);
        }
        assert At(g', n, other) == At(g, n, other);
      }
    }
  }

  /** `canPlaceWord(word, startX, startY, dx, dy, grid, size)` for a start cell in the
      grid: true exactly when the placement rule `Fits` holds. */
  method CanPlaceWord(word: string, p: Placement, g: Grid, n: nat) returns (ok: bool)
    requires IsGrid(g, n) && InGrid(n, (p.x, p.y)) && IsDirection(p)
    ensures ok <==> Fits(g, n, word, p)
  {
    var endX := p.x + Offset(p.dx, |word| - 1);
    if endX >= n || endX < 0 {
      return false;
    }
    var endY := p.y + Offset(p.dy, |word| - 1);
    if endY >= n || endY < 0 {
      return false;
    }
    ok := SpanAdmits(word, p, g, n);
  }

  /** The letter loop of `canPlaceWord`: every cell of a span that lies in the grid is
      blank or already holds the required letter. */
  method SpanAdmits(word: string, p: Placement, g: Grid, n: nat) returns (ok: bool)
    requires IsGrid(g, n) && InGrid(n, (p.x, p.y)) && InGrid(n, SpanCell(p, |word| - 1)) && IsDirection(p)
    ensures ok <==> forall i :: 0 <= i < |word| ==> Admits(g, n, word, p, i)
  {
    for i := 0 to |word|
      invariant forall j :: 0 <= j < i ==> Admits(g, n, word, p, j)
    {
      SpanInGrid(n, |word|, p, i);
      var cell := SpanCell(p, i);
      if g[cell.0][cell.1] != Blank && g[cell.0][cell.1] != Letter(word[i]) {
        assert !Admits(g, n, word, p, i);
        return false;
      }
      assert Admits(g, n, word, p, i);
    }
    return true;
  }

  /** `placeWord(word, startX, startY, dx, dy, grid)`: afterwards the span spells the
      word and every cell off the span is unchanged. When the placement rule held, no
      letter already in the grid is overwritten. */
  method PlaceWord(word: string, p: Placement, g: Grid, n: nat) returns (g': Grid)
    requires IsGrid(g, n) && InGrid(n, (p.x, p.y)) && InGrid(n, SpanCell(p, |word| - 1)) && IsDirection(p)
    ensures IsGrid(g', n)
    ensures Spells(g', n, word, p)
    ensures forall r, c :: 0 <= r < n && 0 <= c < n && !OnSpan(p, |word|, (r, c)) ==> g'[r][c] == g[r][c]
    ensures Fits(g, n, word, p) ==> KeepsLetters(g, g', n)
    ensures IsUpperWord(word) && UpperOrBlank(g, n) ==> UpperOrBlank(g', n)
  {
    g' := g;
    for i := 0 to |word|
      invariant IsGrid(g', n) && Placing(g, g', n, word, p, i)
    {
      SpanInGrid(n, |word|, p, i);
      var prev := g';
      g' := Write(g', n, SpanCell(p, i), Letter(word[i]));
      PlacingStep(g, prev, g', n, word, p, i);
    }
    OffSpanAll(g, g', n, word, p);
  }

  /** The loop invariant of `placeWord` after `i` letters: they are spelled, nothing off
      their cells changed, no letter was overwritten when the rule held, and an upper-case
      grid stays upper-case. */
  predicate Placing(g: Grid, g': Grid, n: nat, word: string, p: Placement, i: int)
    requires IsGrid(g, n) && IsGrid(g', n) && 0 <= i <= |word|
  {
    SpellsPrefix(g', n, word, p, i) &&
    (forall r, c :: 0 <= r < n && 0 <= c < n && !OnSpan(p, i, (r, c)) ==> g'[r][c] == g[r][c]) &&
    (Fits(g, n, word, p) ==> KeepsLetters(g, g', n)) &&
    (IsUpperWord(word) && UpperOrBlank(g, n) ==> UpperOrBlank(g', n))
  }

  lemma PlacingStep(g: Grid, prev: Grid, g': Grid, n: nat, word: string, p: Placement, i: int)
    requires IsGrid(g, n) && IsGrid(prev, n) && IsDirection(p) && 0 <= i < |word|
    requires InGrid(n, SpanCell(p, i)) && Placing(g, prev, n, word, p, i)
    requires g' == Write(prev, n, SpanCell(p, i), Letter(word[i]))
    ensures IsGrid(g', n) && Placing(g, g', n, word, p, i + 1)
  {
    PrefixKept(prev, g', n, word, p, i);
    var cell := SpanCell(p, i);
    forall r, c | 0 <= r < n && 0 <= c < n && !OnSpan(p, i + 1, (r, c))
      ensures g'[r][c] == g[r][c]
    {
      assert (r, c) != cell;
    }
    if Fits(g, n, word, p) {
      assert Admits(g, n, word, p, i);
      forall r, c | 0 <= r < n && 0 <= c < n && g[r][c] != Blank
        ensures g'[r][c] == g[r][c]
      {
        if (r, c) == cell {
          assert prev[r][c] == g[r][c];
        }
      }
    }
  }

  /** Once the whole word is written, the off-span clause covers exactly the span. */
  lemma OffSpanAll(g: Grid, g': Grid, n: nat, word: string, p: Placement)
    requires IsGrid(g, n) && IsGrid(g', n) && Placing(g, g', n, word, p, |word|)
    ensures Spells(g', n, word, p)
    ensures forall r, c :: 0 <= r < n && 0 <= c < n && !OnSpan(p, |word|, (r, c)) ==> g'[r][c] == g[r][c]
    ensures Fits(g, n, word, p) ==> KeepsLetters(g, g', n)
    ensures IsUpperWord(word) && UpperOrBlank(g, n) ==> UpperOrBlank(g', n)
  {
  }

  /** The three random numbers of one placement attempt. */
  datatype Draw = Draw(dir: nat, x: nat, y: nat)

  /** What `Math.floor(Math.random() * k)` can produce for the three draws. */
  predicate ValidDraw(d: Draw, n: nat) {
    d.dir < |Directions| && d.x < n && d.y < n
  }

  /** The placement an attempt proposes. */
  function Proposal(d: Draw, n: nat): (p: Placement)
    requires ValidDraw(d, n)
    ensures IsDirection(p) && p.x == d.x && p.y == d.y && InGrid(n, (p.x, p.y))
  {
    Placement(d.x, d.y, Directions[d.dir].0, Directions[d.dir].1)
  }

  /** None of the first `k` draws for the `w`-th word proposes a placement that fits `g`. */
  predicate NoneFits(g: Grid, n: nat, word: string, w: nat, draw: (nat, nat) -> Draw, k: nat)
    requires IsGrid(g, n) && forall a: nat :: ValidDraw(draw(w, a), n)
  {
    forall a: nat :: a < k ==> !Fits(g, n, word, Proposal(draw(w, a), n))
  }

  /** The outcome of the attempt loop for the `w`-th word tried on `g`: a word placed after
      `t` attempts was placed by draw `t - 1`, the first draw that fits; a dropped word
      fitted with none of the 100 draws. */
  predicate FirstFit(g: Grid, n: nat, word: string, w: nat, draw: (nat, nat) -> Draw, placed: bool, t: nat)
    requires IsGrid(g, n) && forall a: nat :: ValidDraw(draw(w, a), n)
  {
    if placed then 1 <= t && NoneFits(g, n, word, w, draw, t - 1) && Fits(g, n, word, Proposal(draw(w, t - 1), n))
    else NoneFits(g, n, word, w, draw, MaxAttempts)
  }

  /** The `while (!placed && attempts < 100)` loop of `initializeGame` for one word.
      It stops at the first attempt whose placement fits; after 100 failures the word
      is dropped and the grid is unchanged. A placed word is spelled along its span,
      every letter that was in the grid stays, and nothing changes off the span. */
  method TryPlace(g: Grid, n: nat, word: string, w: nat, draw: (nat, nat) -> Draw)
    returns (g': Grid, placed: bool, p: Placement, tries: nat)
    requires IsGrid(g, n)
    requires forall a: nat :: ValidDraw(draw(w, a), n)
    ensures IsGrid(g', n)
    ensures 1 <= tries <= MaxAttempts
    ensures !placed ==> g' == g && tries == MaxAttempts
    ensures !placed ==> forall a: nat :: a < MaxAttempts ==> !Fits(g, n, word, Proposal(draw(w, a), n))
    ensures placed ==> p == Proposal(draw(w, tries - 1), n) &&
                       forall a: nat :: a < tries - 1 ==> !Fits(g, n, word, Proposal(draw(w, a), n))
    ensures placed ==> IsDirection(p) && InGrid(n, (p.x, p.y)) && Fits(g, n, word, p) && Spells(g', n, word, p)
    ensures placed ==> forall r, c :: 0 <= r < n && 0 <= c < n && !OnSpan(p, |word|, (r, c)) ==> g'[r][c] == g[r][c]
    ensures forall r, c :: 0 <= r < n && 0 <= c < n && g[r][c] != Blank ==> g'[r][c] == g[r][c]
    ensures IsUpperWord(word) && UpperOrBlank(g, n) ==> UpperOrBlank(g', n)
  {
    g' := g;
    placed := false;
    p := Placement(0, 0, Stay, Fwd);
    tries := 0;
    while !placed && tries < MaxAttempts
      invariant Trying(g, g', n, word, w, draw, placed, p, tries)
    {
      g', placed, p := Attempt(g, n, word, w, draw, tries);
      tries := tries + 1;
    }
    TryingDone(g, g', n, word, w, draw, placed, p, tries);
  }

  /** Attempt number `tries` on a grid that no earlier draw fitted: `canPlaceWord` for the
      drawn placement, and `placeWord` when it fits. */
  method Attempt(g: Grid, n: nat, word: string, w: nat, draw: (nat, nat) -> Draw, tries: nat)
    returns (g': Grid, placed: bool, p: Placement)
    requires IsGrid(g, n) && forall a: nat :: ValidDraw(draw(w, a), n)
    requires tries < MaxAttempts && NoneFits(g, n, word, w, draw, tries)
    ensures Trying(g, g', n, word, w, draw, placed, p, tries + 1)
  {
    p := Proposal(draw(w, tries), n);
    placed := CanPlaceWord(word, p, g, n);
    if placed {
      g' := PlaceWord(word, p, g, n);
      TryingFits(g, g', n, word, w, draw, p, tries);
    } else {
      g' := g;
    }
  }

  /** The loop invariant of `TryPlace` after `tries` attempts: while no draw has fitted
      the grid is untouched; once one fits, it was the first, and the word is placed. */
  predicate Trying(g: Grid, g': Grid, n: nat, word: string, w: nat, draw: (nat, nat) -> Draw,
                   placed: bool, p: Placement, tries: nat)
    requires IsGrid(g, n) && forall a: nat :: ValidDraw(draw(w, a), n)
  {
    tries <= MaxAttempts && IsGrid(g', n) &&
    (!placed ==> g' == g && NoneFits(g, n, word, w, draw, tries)) &&
    (placed ==> 1 <= tries && p == Proposal(draw(w, tries - 1), n)
                && FirstFit(g, n, word, w, draw, true, tries) && Placed(g, g', n, word, p))
  }

  /** What placing a fitting word leaves behind: the word spelled on its span, nothing
      changed off the span, no letter lost and an upper-case grid still upper-case. */
  predicate Placed(g: Grid, g': Grid, n: nat, word: string, p: Placement)
    requires IsGrid(g, n) && IsGrid(g', n)
  {
    Spells(g', n, word, p)
    && (forall r, c :: 0 <= r < n && 0 <= c < n && !OnSpan(p, |word|, (r, c)) ==> g'[r][c] == g[r][c])
    && KeepsLetters(g, g', n)
    && (IsUpperWord(word) && UpperOrBlank(g, n) ==> UpperOrBlank(g', n))
  }

  /** The attempt that fits ends the loop with the word placed. */
  lemma TryingFits(g: Grid, g': Grid, n: nat, word: string, w: nat, draw: (nat, nat) -> Draw,
                   p: Placement, tries: nat)
    requires IsGrid(g, n) && IsGrid(g', n) && forall a: nat :: ValidDraw(draw(w, a), n)
    requires tries < MaxAttempts && NoneFits(g, n, word, w, draw, tries)
    requires p == Proposal(draw(w, tries), n) && Fits(g, n, word, p)
    requires Spells(g', n, word, p)
    requires forall r, c :: 0 <= r < n && 0 <= c < n && !OnSpan(p, |word|, (r, c)) ==> g'[r][c] == g[r][c]
    requires KeepsLetters(g, g', n)
    requires IsUpperWord(word) && UpperOrBlank(g, n) ==> UpperOrBlank(g', n)
    ensures Trying(g, g', n, word, w, draw, true, p, tries + 1)
  {
  }

  /** When the loop stops, the invariant gives the contract of `TryPlace`. */
  lemma TryingDone(g: Grid, g': Grid, n: nat, word: string, w: nat, draw: (nat, nat) -> Draw,
                   placed: bool, p: Placement, tries: nat)
    requires IsGrid(g, n) && forall a: nat :: ValidDraw(draw(w, a), n)
    requires Trying(g, g', n, word, w, draw, placed, p, tries) && (placed || tries == MaxAttempts)
    ensures IsGrid(g', n)
    ensures 1 <= tries <= MaxAttempts
    ensures !placed ==> g' == g && tries == MaxAttempts
    ensures !placed ==> forall a: nat :: a < MaxAttempts ==> !Fits(g, n, word, Proposal(draw(w, a), n))
    ensures placed ==> p == Proposal(draw(w, tries - 1), n) &&
                       forall a: nat :: a < tries - 1 ==> !Fits(g, n, word, Proposal(draw(w, a), n))
    ensures placed ==> IsDirection(p) && InGrid(n, (p.x, p.y)) && Fits(g, n, word, p) && Spells(g', n, word, p)
    ensures placed ==> forall r, c :: 0 <= r < n && 0 <= c < n && !OnSpan(p, |word|, (r, c)) ==> g'[r][c] == g[r][c]
    ensures forall r, c :: 0 <= r < n && 0 <= c < n && g[r][c] != Blank ==> g'[r][c] == g[r][c]
    ensures IsUpperWord(word) && UpperOrBlank(g, n) ==> UpperOrBlank(g', n)
  {
  }

  /** The noise fill: every blank cell gets `String.fromCharCode(65 + noise(i, j))`;
      cells holding a letter are left alone. */
  method FillNoise(g: Grid, n: nat, noise: (int, int) -> nat) returns (g': Grid)
    requires IsGrid(g, n)
    requires forall i, j :: noise(i, j) < 26
    ensures IsGrid(g', n)
    ensures forall i, j :: 0 <= i < n && 0 <= j < n ==>
              g'[i][j] == if g[i][j] == Blank then Letter(('A' as int + noise(i, j)) as char) else g[i][j]
  {
    g' := g;
    for i := 0 to n
      invariant IsGrid(g', n)
      invariant forall r, c :: 0 <= r < i && 0 <= c < n ==>
                  g'[r][c] == if g[r][c] == Blank then Letter(('A' as int + noise(r, c)) as char) else g[r][c]
      invariant forall r :: i <= r < n ==> g'[r] == g[r]
    {
      var row := g'[i];
      for j := 0 to n
        invariant |row| == n
        invariant forall c :: 0 <= c < j ==>
                    row[c] == if g[i][c] == Blank then Letter(('A' as int + noise(i, c)) as char) else g[i][c]
        invariant forall c :: j <= c < n ==> row[c] == g[i][c]
      {
        if row[j] == Blank {
          row := row[j := Letter(('A' as int + noise(i, j)) as char)];
        }
      }
      g' := g'[i := row];
    }
  }

  /** Every letter already in `g` is still in `g'`. */
  predicate KeepsLetters(g: Grid, g': Grid, n: nat)
    requires IsGrid(g, n) && IsGrid(g', n)
  {
    forall r, c :: 0 <= r < n && 0 <= c < n && g[r][c] != Blank ==> g'[r][c] == g[r][c]
  }

  /** A grid whose placed words spell along their spans keeps spelling them when every
      letter already in the grid stays. */
  lemma SpellsKept(g: Grid, g': Grid, n: nat, word: string, p: Placement)
    requires IsGrid(g, n) && IsGrid(g', n) && Spells(g, n, word, p)
    requires KeepsLetters(g, g', n)
    ensures Spells(g', n, word, p)
  {
    forall i | 0 <= i < |word| ensures InGrid(n, SpanCell(p, i)) && At(g', n, SpanCell(p, i)) == Letter(word[i]) {
      assert At(g, n, SpanCell(p, i)) == Letter(word[i]);
    }
  }

  /** Each placed word is spelled along its recorded placement. */
  predicate AllSpelled(g: Grid, n: nat, words: seq<string>, placements: seq<Placement>)
    requires IsGrid(g, n)
  {
    |placements| == |words| &&
    forall k :: 0 <= k < |words| ==> IsDirection(placements[k]) && Spells(g, n, words[k], placements[k])
  }

  lemma AllSpelledKept(g: Grid, g': Grid, n: nat, words: seq<string>, placements: seq<Placement>)
    requires IsGrid(g, n) && IsGrid(g', n) && AllSpelled(g, n, words, placements)
    requires KeepsLetters(g, g', n)
    ensures AllSpelled(g', n, words, placements)
  {
    forall k | 0 <= k < |words| ensures Spells(g', n, words[k], placements[k]) {
      SpellsKept(g, g', n, words[k], placements[k]);
    }
  }

  lemma AllSpelledSnoc(g: Grid, n: nat, words: seq<string>, placements: seq<Placement>, w: string, p: Placement)
    requires IsGrid(g, n) && AllSpelled(g, n, words, placements)
    requires IsDirection(p) && Spells(g, n, w, p)
    ensures AllSpelled(g, n, words + [w], placements + [p])
  {
    var ws, ps := words + [w], placements + [p];
    forall k | 0 <= k < |ws| ensures IsDirection(ps[k]) && Spells(g, n, ws[k], ps[k]) {
      if k < |words| {
        assert ws[k] == words[k] && ps[k] == placements[k];
      }
    }
  }

  /** Attempt counts: between 1 and 100, and exactly 100 for a word that was not placed. */
  predicate TriesOk(placed: seq<bool>, tries: seq<nat>) {
    |placed| == |tries| &&
    (forall k :: 0 <= k < |tries| ==> 1 <= tries[k] <= MaxAttempts) &&
    (forall k :: 0 <= k < |tries| && !placed[k] ==> tries[k] == MaxAttempts)
  }

  lemma TriesSnoc(placed: seq<bool>, tries: seq<nat>, ok: bool, t: nat)
    requires TriesOk(placed, tries) && 1 <= t <= MaxAttempts && (!ok ==> t == MaxAttempts)
    ensures TriesOk(placed + [ok], tries + [t])
  {
    var ps, ts := placed + [ok], tries + [t];
    forall k | 0 <= k < |ts| ensures 1 <= ts[k] <= MaxAttempts && (!ps[k] ==> ts[k] == MaxAttempts) {
      if k < |tries| {
        assert ts[k] == tries[k] && ps[k] == placed[k];
      }
    }
  }

  /** Extending the bank prefix by one word extends the selection by that word when it
      was placed. */
  lemma SelectSnoc(bank: seq<string>, j: nat, placed: seq<bool>, ok: bool)
    requires j < |bank| && |placed| == j
    ensures Select(bank[..j + 1], placed + [ok])
            == Select(bank[..j], placed) + (if ok then [bank[j]] else [])
  {
    assert bank[..j + 1][..j] == bank[..j];
    assert (placed + [ok])[..j] == placed;
    assert bank[..j + 1][j] == bank[j];
  }

  /** Word `j` of the bank was tried on grid `t`: its attempt loop ended as `FirstFit`
      says, every letter of `t` is still in `grid`, and a placed word reads in `grid`
      along the draw that placed it. */
  predicate TriedOn(t: Grid, grid: Grid, n: nat, word: string, j: nat, draw: (nat, nat) -> Draw,
                    placed: bool, tries: nat)
    requires IsGrid(t, n) && IsGrid(grid, n) && forall a: nat :: ValidDraw(draw(j, a), n)
  {
    FirstFit(t, n, word, j, draw, placed, tries) && KeepsLetters(t, grid, n)
    && (placed ==> 1 <= tries && Spells(grid, n, word, Proposal(draw(j, tries - 1), n)))
  }

  /** The first `|tried|` words of `bank` were tried in turn on the grids `tried`: the
      first on the empty grid; a dropped word leaves the next word the same grid, and a
      placed word leaves it the same grid with that word written along the draw that
      placed it and nothing else changed. */
  predicate TriedAll(tried: seq<Grid>, grid: Grid, n: nat, bank: seq<string>, draw: (nat, nat) -> Draw,
                     placed: seq<bool>, tries: seq<nat>)
    requires IsGrid(grid, n) && forall w: nat, a: nat :: ValidDraw(draw(w, a), n)
  {
    |tried| == |placed| == |tries| && |tried| <= |bank|
    && (forall j :: 0 <= j < |tried| ==>
          IsGrid(tried[j], n) && TriedOn(tried[j], grid, n, bank[j], j, draw, placed[j], tries[j]))
    && Chained(tried, n, bank, draw, placed, tries)
  }

  /** Word `j`, tried on grid `t`, leaves grid `g`: `t` itself when the word was dropped,
      and `t` with the word written along its first fitting draw, nothing else changed,
      when it was placed. */
  predicate Follows(t: Grid, g: Grid, n: nat, word: string, j: nat, draw: (nat, nat) -> Draw,
                    placed: bool, tries: nat)
    requires IsGrid(t, n) && IsGrid(g, n) && forall a: nat :: ValidDraw(draw(j, a), n)
  {
    && (!placed ==> g == t)
    && (placed ==> 1 <= tries && Placed(t, g, n, word, Proposal(draw(j, tries - 1), n)))
  }

  /** How each grid of `tried` follows from the one before: the first is empty, and each
      later one is what the word before it left. */
  predicate Chained(tried: seq<Grid>, n: nat, bank: seq<string>, draw: (nat, nat) -> Draw,
                    placed: seq<bool>, tries: seq<nat>)
    requires |tried| == |placed| == |tries| && |tried| <= |bank|
    requires forall j :: 0 <= j < |tried| ==> IsGrid(tried[j], n)
    requires forall w: nat, a: nat :: ValidDraw(draw(w, a), n)
  {
    && (|tried| > 0 ==> tried[0] == EmptyGrid(n))
    && (forall j :: 0 <= j < |tried| - 1 ==>
          Follows(tried[j], tried[j + 1], n, bank[j], j, draw, placed[j], tries[j]))
  }

  /** The grid after the last word tried: the empty grid before the first word, and
      otherwise what the last word left. */
  predicate AfterLast(tried: seq<Grid>, grid: Grid, n: nat, bank: seq<string>, draw: (nat, nat) -> Draw,
                      placed: seq<bool>, tries: seq<nat>)
    requires IsGrid(grid, n) && forall w: nat, a: nat :: ValidDraw(draw(w, a), n)
    requires |tried| == |placed| == |tries| <= |bank| && forall j :: 0 <= j < |tried| ==> IsGrid(tried[j], n)
  {
    && (|tried| == 0 ==> grid == EmptyGrid(n))
    && (|tried| > 0 ==>
          Follows(tried[|tried| - 1], grid, n, bank[|tried| - 1], |tried| - 1, draw, placed[|tried| - 1], tries[|tried| - 1]))
  }

  /** The grid a word is tried on extends the chain by one. */
  lemma ChainSnoc(tried: seq<Grid>, grid: Grid, n: nat, bank: seq<string>, draw: (nat, nat) -> Draw,
                  placed: seq<bool>, tries: seq<nat>, ok: bool, t: nat)
    requires |tried| == |placed| == |tries| && |tried| < |bank| && IsGrid(grid, n)
    requires forall j :: 0 <= j < |tried| ==> IsGrid(tried[j], n)
    requires forall w: nat, a: nat :: ValidDraw(draw(w, a), n)
    requires Chained(tried, n, bank, draw, placed, tries)
    requires AfterLast(tried, grid, n, bank, draw, placed, tries)
    ensures Chained(tried + [grid], n, bank, draw, placed + [ok], tries + [t])
  {
    forall j | 0 <= j < |tried|
      ensures Follows((tried + [grid])[j], (tried + [grid])[j + 1], n, bank[j], j, draw, (placed + [ok])[j], (tries + [t])[j])
    {
      assert (tried + [grid])[j] == tried[j] && (placed + [ok])[j] == placed[j] && (tries + [t])[j] == tries[j];
      if j < |tried| - 1 {
        assert (tried + [grid])[j + 1] == tried[j + 1];
      } else {
        assert (tried + [grid])[j + 1] == grid;
      }
    }
  }

  /** Later changes that keep every letter keep the record of the words tried so far. */
  lemma TriedKept(tried: seq<Grid>, grid: Grid, grid': Grid, n: nat, bank: seq<string>,
                  draw: (nat, nat) -> Draw, placed: seq<bool>, tries: seq<nat>)
    requires IsGrid(grid, n) && IsGrid(grid', n) && forall w: nat, a: nat :: ValidDraw(draw(w, a), n)
    requires TriedAll(tried, grid, n, bank, draw, placed, tries) && KeepsLetters(grid, grid', n)
    ensures TriedAll(tried, grid', n, bank, draw, placed, tries)
  {
    forall j | 0 <= j < |tried|
      ensures TriedOn(tried[j], grid', n, bank[j], j, draw, placed[j], tries[j])
    {
      if placed[j] {
        SpellsKept(grid, grid', n, bank[j], Proposal(draw(j, tries[j] - 1), n));
      }
    }
  }

  /** Trying the next word of the bank on the current grid extends the record. */
  lemma TriedSnoc(tried: seq<Grid>, grid: Grid, g': Grid, n: nat, bank: seq<string>,
                  draw: (nat, nat) -> Draw, placed: seq<bool>, tries: seq<nat>, ok: bool, t: nat)
    requires IsGrid(grid, n) && IsGrid(g', n) && forall w: nat, a: nat :: ValidDraw(draw(w, a), n)
    requires TriedAll(tried, grid, n, bank, draw, placed, tries) && |tried| < |bank|
    requires AfterLast(tried, grid, n, bank, draw, placed, tries)
    requires KeepsLetters(grid, g', n)
    requires TriedOn(grid, g', n, bank[|tried|], |tried|, draw, ok, t)
    ensures TriedAll(tried + [grid], g', n, bank, draw, placed + [ok], tries + [t])
  {
    TriedKept(tried, grid, g', n, bank, draw, placed, tries);
    forall j | 0 <= j < |tried| + 1
      ensures IsGrid((tried + [grid])[j], n)
              && TriedOn((tried + [grid])[j], g', n, bank[j], j, draw, (placed + [ok])[j], (tries + [t])[j])
    {
      if j < |tried| {
        assert (tried + [grid])[j] == tried[j] && (placed + [ok])[j] == placed[j] && (tries + [t])[j] == tries[j];
      }
    }
    ChainSnoc(tried, grid, n, bank, draw, placed, tries, ok, t);
  }

  /** `initializeGame()` for difficulty `d`: an empty grid of `GRID_SIZES[d]`, each word
      of the bank tried with at most 100 attempts, then the noise fill.
      The placed words are the bank's words whose flag is set, in bank order and
      without repetition; a word is dropped only after 100 attempts none of which fitted
      the grid it was tried on (`tried[j]`), and a placed word used the first draw that
      fitted. Each placed word is spelled along its placement in the final grid, and
      every cell holds an upper-case letter. */
  method InitializeGame(d: Difficulty, draw: (nat, nat) -> Draw, noise: (int, int) -> nat)
    returns (grid: Grid, words: seq<string>, placed: seq<bool>, placements: seq<Placement>, tries: seq<nat>,
             tried: seq<Grid>)
    requires forall w: nat, a: nat :: ValidDraw(draw(w, a), GridSize(d))
    requires forall i, j :: noise(i, j) < 26
    ensures IsGrid(grid, GridSize(d))
    ensures forall r, c :: 0 <= r < GridSize(d) && 0 <= c < GridSize(d) ==>
              grid[r][c].Letter? && IsUpper(grid[r][c].ch)
    ensures |placed| == |tries| == |tried| == |WordList(d)|
    ensures words == Select(WordList(d), placed)
    ensures IsSubseq(words, WordList(d)) && NoDup(words)
    ensures forall j :: 0 <= j < |tries| ==> 1 <= tries[j] <= MaxAttempts
    ensures forall j :: 0 <= j < |tries| && !placed[j] ==> tries[j] == MaxAttempts
    ensures TriedAll(tried, grid, GridSize(d), WordList(d), draw, placed, tries)
    ensures |placements| == |words|
    ensures forall k :: 0 <= k < |words| ==>
              IsDirection(placements[k]) && Spells(grid, GridSize(d), words[k], placements[k])
  {
    var n := GridSize(d);
    grid, words, placed, placements, tries, tried := PlaceAll(d, draw);
    var filled := FillNoise(grid, n, noise);
    NoiseFillsUpper(grid, filled, n, noise);
    AllSpelledKept(grid, filled, n, words, placements);
    TriedKept(tried, grid, filled, n, WordList(d), draw, placed, tries);
    grid := filled;
    WordListsWellFormed(d);
    SubseqNoDup(words, WordList(d));
  }

  /** The placement phase of `initializeGame()`: each word of the bank in turn gets up to
      100 attempts on the grid built so far. */
  method PlaceAll(d: Difficulty, draw: (nat, nat) -> Draw)
    returns (grid: Grid, words: seq<string>, placed: seq<bool>, placements: seq<Placement>, tries: seq<nat>,
             tried: seq<Grid>)
    requires forall w: nat, a: nat :: ValidDraw(draw(w, a), GridSize(d))
    ensures IsGrid(grid, GridSize(d)) && UpperOrBlank(grid, GridSize(d))
    ensures |placed| == |WordList(d)| && TriesOk(placed, tries)
    ensures words == Select(WordList(d), placed)
    ensures AllSpelled(grid, GridSize(d), words, placements)
    ensures |tried| == |WordList(d)| && TriedAll(tried, grid, GridSize(d), WordList(d), draw, placed, tries)
    ensures AfterLast(tried, grid, GridSize(d), WordList(d), draw, placed, tries)
  {
    var n := GridSize(d);
    var bank := WordList(d);
    grid := EmptyGrid(n);
    words, placed, placements, tries, tried := [], [], [], [], [];
    for j := 0 to |bank|
      invariant IsGrid(grid, n) && PlacedSoFar(bank, n, draw, j, grid, words, placed, placements, tries, tried)
    {
      grid, words, placed, placements, tries, tried := PlaceNext(d, draw, j, grid, words, placed, placements, tries, tried);
    }
    assert bank[..|bank|] == bank;
  }

  /** The loop invariant of `PlaceAll` after the first `j` words of `bank`. */
  predicate PlacedSoFar(bank: seq<string>, n: nat, draw: (nat, nat) -> Draw, j: nat, grid: Grid,
                        words: seq<string>, placed: seq<bool>, placements: seq<Placement>,
                        tries: seq<nat>, tried: seq<Grid>)
    requires IsGrid(grid, n) && forall w: nat, a: nat :: ValidDraw(draw(w, a), n)
  {
    && j <= |bank| && UpperOrBlank(grid, n)
    && |placed| == j && TriesOk(placed, tries)
    && words == Select(bank[..j], placed)
    && AllSpelled(grid, n, words, placements)
    && |tried| == j && TriedAll(tried, grid, n, bank, draw, placed, tries)
    && AfterLast(tried, grid, n, bank, draw, placed, tries)
  }

  /** The grid word `|tried|` leaves behind is the one `AfterLast` describes. */
  lemma AfterTry(tried: seq<Grid>, grid: Grid, g': Grid, n: nat, bank: seq<string>, draw: (nat, nat) -> Draw,
                 placed: seq<bool>, tries: seq<nat>, ok: bool, t: nat)
    requires IsGrid(grid, n) && IsGrid(g', n) && forall w: nat, a: nat :: ValidDraw(draw(w, a), n)
    requires |tried| == |placed| == |tries| < |bank| && forall j :: 0 <= j < |tried| ==> IsGrid(tried[j], n)
    requires Follows(grid, g', n, bank[|tried|], |tried|, draw, ok, t)
    ensures AfterLast(tried + [grid], g', n, bank, draw, placed + [ok], tries + [t])
  {
    assert (placed + [ok])[|tried|] == ok && (tries + [t])[|tried|] == t && (tried + [grid])[|tried|] == grid;
  }

  /** One round of `PlaceAll`: word `j` of the bank gets its attempts on the current grid. */
  method PlaceNext(d: Difficulty, draw: (nat, nat) -> Draw, j: nat, grid: Grid, words: seq<string>,
                   placed: seq<bool>, placements: seq<Placement>, tries: seq<nat>, tried: seq<Grid>)
    returns (grid': Grid, words': seq<string>, placed': seq<bool>, placements': seq<Placement>,
             tries': seq<nat>, tried': seq<Grid>)
    requires forall w: nat, a: nat :: ValidDraw(draw(w, a), GridSize(d))
    requires j < |WordList(d)| && IsGrid(grid, GridSize(d))
    requires PlacedSoFar(WordList(d), GridSize(d), draw, j, grid, words, placed, placements, tries, tried)
    ensures IsGrid(grid', GridSize(d))
    ensures PlacedSoFar(WordList(d), GridSize(d), draw, j + 1, grid', words', placed', placements', tries', tried')
  {
    var n := GridSize(d);
    var bank := WordList(d);
    WordListsWellFormed(d);
    var word := bank[j];
    var ok, p, t;
    grid', ok, p, t := TryPlace(grid, n, word, j, draw);
    AllSpelledKept(grid, grid', n, words, placements);
    SelectSnoc(bank, j, placed, ok);
    TriesSnoc(placed, tries, ok, t);
    TriedSnoc(tried, grid, grid', n, bank, draw, placed, tries, ok, t);
    AfterTry(tried, grid, grid', n, bank, draw, placed, tries, ok, t);
    if ok {
      AllSpelledSnoc(grid', n, words, placements, word, p);
      words', placements' := words + [word], placements + [p];
    } else {
      words', placements' := words, placements;
    }
    tried', placed', tries' := tried + [grid], placed + [ok], tries + [t];
  }

  /** After the noise fill every cell holds an upper-case letter, and no letter placed
      before it moved. */
  lemma NoiseFillsUpper(g: Grid, filled: Grid, n: nat, noise: (int, int) -> nat)
    requires IsGrid(g, n) && IsGrid(filled, n) && UpperOrBlank(g, n)
    requires forall i, j :: noise(i, j) < 26
    requires forall i, j :: 0 <= i < n && 0 <= j < n ==>
               filled[i][j] == if g[i][j] == Blank then Letter(('A' as int + noise(i, j)) as char) else g[i][j]
    ensures forall r, c :: 0 <= r < n && 0 <= c < n ==> filled[r][c].Letter? && IsUpper(filled[r][c].ch)
    ensures KeepsLetters(g, filled, n)
  {
  }
}
