# Portfolio games and list derivations, modelled in Dafny

This project models the logic inside a personal portfolio site. The site's React
components hold two generated puzzles, a card game, and a few pure list and string
derivations:

- **Sudoku** (`SudokuGame.js`): the `isValid` placement test, randomised backtracking
  `fillBoard`, carving a puzzle out of the solution in `generateBoard`, and the session
  handlers `startNewGame`, `handleCellClick` and `handleNumberInput` with the one-second timer.
- **Word search** (`WordSearchGame.js`): the word banks, grid sizes and four placement
  directions, `canPlaceWord` / `placeWord` with up to 100 attempts per word, the noise fill,
  the drag selection (`handleCellSelect`, `getSelectedCells`), the release
  (`handleSelectionEnd`), completion and the best-time rule.
- **Memory** (`MemoryGame.js`): the three card themes, `initializeGame`, the
  `handleCardClick` guards, pair matching and move counting, the delayed flip-back, the
  timer and the completion test `matchedPairs.length === 8`.
- **Admin projects form** (`admin/projects/page.js`): the technologies comma list
  (`split(",").map(trim)` on submit, `join(", ")` on edit), the `PUT`/`POST` choice, and
  the form reset after a submit or "Cancel Edit".
- **Projects page** (`projects/page.js`): the category plus case-insensitive search filter.
- **Skills** (`Skills.js`): the response-shape check, the category list and the category filter.
- **Featured projects** (`Projects.js`): the featured top three and the technology chips
  with their "+n more" badge.
- **View counter** (`viewController.js`): client address derivation and the
  look-up-then-save visitor record. The `viewers` collection has no unique index on `ip`
  (`viewModel.js`), so it is modelled as a multiset of addresses.

Randomness is passed in as parameters:

- the digit orders tried by `fillBoard`;
- the cells drawn while carving;
- the direction and start drawn for each word-search attempt;
- the noise letters;
- the memory shuffle, as any permutation of the theme's cards as written.

Network answers are parameters too: a response value, or a `succeeded` flag.

Modules and files:

| module | file |
|---|---|
| `Wrappers` (`Option`, `Result`) | `wrappers.dfy` |
| `Seqs` (subsequences, filters, distinctness) | `seqs.dfy` |
| `Text` (JavaScript `trim`, `split`, `join`, `toLowerCase`, `includes`) | `text.dfy` |
| `GameCommon` (`formatTime`) | `game_common.dfy` |
| `Sudoku`, `SudokuGame` | `sudoku.dfy`, `sudoku_game.dfy` |
| `WordSearch`, `WordSearchGame` | `word_search.dfy`, `word_search_game.dfy` |
| `Memory` | `memory.dfy` |
| `AdminProjects` | `admin_projects.dfy` |
| `ProjectsPage` | `projects_page.dfy` |
| `Skills` | `skills.dfy` |
| `FeaturedProjects` | `featured_projects.dfy` |
| `ViewController` | `view_controller.dfy` |

### Behaviour worth knowing

- **Drag selection.** `getSelectedCells` does not snap to a direction. It steps by the
  signs of the row and column distances for `max(|dr|, |dc|) + 1` cells, so an off-angle
  drag overshoots the pointer and can leave the grid (see Findings).
  `WordSearchGame.CellSelect`, `Enter`, `Drag` and `SelectionEnd` model this handler as
  written. `WordSearchGame.SnapCells` and `CellSelectSnapped` are the corrected variant;
  they are used only for the corrected half of that finding.
- **Digit range.** `handleNumberInput` has no range check. Only the number pad's nine
  buttons call it, so the model types the digit as `1..9`.
- **Fixed cells.** A Sudoku cell carries no `fixed` flag. A cell is fixed when the initial
  board holds a number there.
- **Carve count.** `generateBoard` clears exactly 30, 40 or 50 cells only when `fillBoard`
  filled the board. A request for more clears than there are filled cells makes the
  removal loop run forever.
- **Memory emoji theme.** The emoji theme as written cannot be completed (see Findings).
  `Memory.Initialize` deals the themes as written. `Memory.ThemeCards`, `Win` and
  `FixedEmojiIsPairDeck` state what a corrected emoji theme gives.
- **View counter.** `findOne` and `save` are two separate requests, and nothing makes the
  address unique. Two overlapping visits from a new address can both miss it and both save
  it (`ViewController.OverlappingVisitsStoreTwice`). A forwarded header whose first hop is
  blank yields the empty address; the schema requires `ip`, so the save fails and the
  visit is answered with status 500 (`ViewController.BlankFirstHopRejected`).

## Model

| member | source | states |
|---|---|---|
| GameCommon.FormatTime | src/components/SudokuGame.js:229-235 | the field before the colon reads `seconds div 60` and the field after it reads `seconds mod 60` in at least two digits, so the display gives back the time exactly; the display is five characters exactly below 100 minutes, and a longer one has no leading zero |
| GameCommon.PadTwo | src/components/SudokuGame.js:232-234 | `padStart(2, "0")` keeps the number's value and gives at least two digits |
| GameCommon.Decimal | src/components/SudokuGame.js:232-233 | `toString()` of a natural number: decimal digits that read back as the number, with no leading zero unless the number is 0 |
| GameCommon.FormatTimeZero | src/components/SudokuGame.js:229-235 | zero seconds shows as `00:00` |
| GameCommon.FormatTimeMinute | src/components/SudokuGame.js:229-235 | 75 seconds shows as `01:15` |
| GameCommon.FormatTimeLong | src/components/SudokuGame.js:229-235 | 6000 seconds shows as `100:00`: the minutes are never truncated to two digits |
| Sudoku.CreateEmptyBoard | src/components/SudokuGame.js:7-10 | a 9×9 board with every cell `null` |
| Sudoku.BoxStart | src/components/SudokuGame.js:145-146 | the box origin `floor(i/3)*3` is 0, 3 or 6, and the index lies inside its box |
| Sudoku.IsValid | src/components/SudokuGame.js:133-154 | true exactly when the digit is absent from the row, the column and the 3×3 box containing the cell |
| Sudoku.Set | src/components/SudokuGame.js:198-199 | the copy differs from the board in the one written cell only |
| Sudoku.SetRestores | src/components/SudokuGame.js:114-119 | writing a digit and then `null` back restores the board exactly |
| Sudoku.EmptyCellsAfterSet | src/components/SudokuGame.js:114-119 | placing a digit removes exactly that cell from the null cells, and clearing it adds it back; this is the recursion measure of `fillBoard` |
| Sudoku.FirstEmpty | src/components/SudokuGame.js:105-107 | the scan stops at the first null cell in row-major order, or reports that none is left |
| Sudoku.NoEmptyIsFull | src/components/SudokuGame.js:105-129 | a scan that finds no null cell means the board is full |
| Sudoku.PlaceKeepsConsistent | src/components/SudokuGame.js:113-114 | placing a digit that passes `isValid` keeps every row, column and box free of repeats |
| Sudoku.ExtendsAfterPlace | src/components/SudokuGame.js:114-117 | a completion of the board with one more digit is also a completion of the board before it |
| Sudoku.FillBoard | src/components/SudokuGame.js:102-130 | on `true` the board is full, agrees with the input on every cell the input had filled, and is repeat-free when the input was; on `false` the board equals its input; the recursion ends because each level has one null cell fewer |
| Sudoku.TryCandidate | src/components/SudokuGame.js:112-121 | one candidate digit: on success a full extension, on failure the tentatively written cell is set back to `null` and the board equals the input |
| Sudoku.FillEmptyBoard | src/components/SudokuGame.js:76-79 | when the fill of the empty board succeeds, it is a valid Sudoku solution |
| Sudoku.SolutionUnits | src/components/SudokuGame.js:102-154 | in a valid solution every row, every column and every box is a permutation of 1..9 |
| Sudoku.NineDistinctDigits | src/components/SudokuGame.js:102-154 | nine distinct digits from 1..9 are a permutation of 1..9 |
| Sudoku.ClearStep | src/components/SudokuGame.js:91-94 | clearing one not-yet-cleared filled cell adds exactly one null cell and keeps every other cell equal to the solution |
| Sudoku.Carve | src/components/SudokuGame.js:82-96 | the carved board equals the solution except on the cleared cells, which are exactly the filled cells among the first k draws for the first k at which there are `emptyCells` of them; the result is `None` exactly when all the draws together name fewer than `emptyCells` distinct filled cells, and a request for more clears than filled cells never finishes |
| Sudoku.GenerateBoard | src/components/SudokuGame.js:73-99 | after a successful fill, the puzzle's solution is valid, the initial board is that solution with exactly `emptyCells` cells cleared, those cells are the ones named by the shortest prefix of draws naming that many distinct cells, and there is a puzzle exactly when the draws name at least `emptyCells` distinct cells; after a failed fill there is a puzzle exactly when no cell is to be cleared |
| SudokuGame.Mount | src/components/SudokuGame.js:12-20 | the state before the first game: empty boards, medium difficulty, timer stopped |
| SudokuGame.CellsToClear | src/components/SudokuGame.js:159-163 | every difficulty clears between 1 and 80 cells, so a generated puzzle is never empty or full |
| SudokuGame.StartNewGame | src/components/SudokuGame.js:166-176 | on a carved puzzle the board and the initial board are the puzzle and the solution is kept; mistakes and timer are zero; the selection is cleared; the game runs; the invariant holds |
| SudokuGame.NewGame | src/components/SudokuGame.js:157-176 | `startNewGame(d)` with its generator call: after a successful fill there is a game exactly when the draws name at least `CellsToClear(d)` distinct cells, and then the board has exactly `CellsToClear(d)` empty cells and a valid solution, and the game runs with zero mistakes and timer; a failed fill yields no game |
| SudokuGame.ChangeDifficulty | src/components/SudokuGame.js:28-32 | records the difficulty and starts a new game with it on the given puzzle |
| SudokuGame.SwitchDifficulty | src/components/SudokuGame.js:28-32 | a difficulty change with its generator call: after a successful fill the game restarts under the new difficulty, with exactly `CellsToClear(d)` empty cells, exactly when the draws name at least `CellsToClear(d)` distinct cells |
| SudokuGame.CellClick | src/components/SudokuGame.js:182-187 | a click selects the cell exactly when it is not fixed, so the selection never lands on a fixed cell |
| SudokuGame.NumberInput | src/components/SudokuGame.js:190-215 | no cell selected, no game or a fixed cell: nothing changes; otherwise writes the digit in that cell only, counts a mistake exactly when the digit differs from the solution, and stops the timer exactly when no cell is `null`, right or wrong |
| SudokuGame.Tick | src/components/SudokuGame.js:218-226 | the timer advances by one exactly while the game runs, and nothing else changes |
| SudokuGame.WrongLastEntryCompletes | src/components/SudokuGame.js:203-214 | a wrong digit in the last null cell still ends the game, with one more mistake |
| WordSearch.WordListsWellFormed | src/components/WordSearchGame.js:6-16 | each bank's words are distinct, upper-case and no longer than the grid side |
| WordSearch.EmptyGrid | src/components/WordSearchGame.js:43-45 | an n×n grid of blanks |
| WordSearch.Write | src/components/WordSearchGame.js:112 | writing a letter changes that one cell only |
| WordSearch.Proposal | src/components/WordSearchGame.js:53-57 | each draw gives one of the four directions and the drawn start cell, which lies in the grid |
| WordSearch.SpanInGrid | src/components/WordSearchGame.js:88-97 | when the start and end cells are in the grid, so is every cell in between |
| WordSearch.SpanInjective | src/components/WordSearchGame.js:18-23 | along each of the four directions no cell is visited twice |
| WordSearch.CanPlaceWord | src/components/WordSearchGame.js:87-105 | true exactly when the end cell is in the grid and every covered cell is blank or already holds the required letter |
| WordSearch.SpanAdmits | src/components/WordSearchGame.js:99-104 | the cell loop accepts exactly when every covered cell is blank or holds the required letter |
| WordSearch.PlaceWord | src/components/WordSearchGame.js:108-114 | the grid spells the word along the span and is unchanged off it; where the word fits, no letter already on the grid changes |
| WordSearch.PrefixKept | src/components/WordSearchGame.js:109-113 | each written letter extends the spelled prefix by one |
| WordSearch.SpellsKept | src/components/WordSearchGame.js:102 | a word spelled on the grid stays spelled when later changes only fill blanks |
| WordSearch.TryPlace | src/components/WordSearchGame.js:50-65 | at most 100 attempts; a placed word uses the first drawn placement that fits, spells the word there and changes only blanks; a dropped word fits with none of its 100 draws and leaves the grid unchanged |
| WordSearch.Attempt | src/components/WordSearchGame.js:53-64 | one attempt: when the drawn placement fits, the word is written there and this is the first fitting draw; otherwise the grid is unchanged and no draw so far fits |
| WordSearch.PlaceAll | src/components/WordSearchGame.js:49-66 | the placed words are the bank's words whose attempts succeeded, in bank order, each spelled along its recorded placement; the first word was tried on the empty grid and each later word on exactly the grid the word before it left: that grid unchanged when the word was dropped, or with the word written along its first fitting draw and no other cell changed when it was placed; a word was dropped exactly when none of its 100 draws fitted the grid it was tried on; the returned grid is what the last word left |
| WordSearch.FillNoise | src/components/WordSearchGame.js:69-77 | exactly the blank cells receive the drawn letter `A + k`; letters stay |
| WordSearch.NoiseFillsUpper | src/components/WordSearchGame.js:69-77 | after the fill every cell is one upper-case letter, and every placed letter is kept |
| WordSearch.InitializeGame | src/components/WordSearchGame.js:40-84 | a full grid of upper-case letters; the word list is a distinct, order-preserving subsequence of the bank; each word had 1 to 100 attempts; each word was tried on exactly the grid the words before it left, starting from the empty grid; a dropped word fitted with none of its 100 draws there, and a placed word was written along the first draw that fitted and reads there in the final grid |
| WordSearchGame.Sign | src/components/WordSearchGame.js:166-167 | `Math.sign(d)` steps `|d|` times to `d` and is zero only for zero |
| WordSearchGame.SelectedCells | src/components/WordSearchGame.js:164-176 | `max(|dr|, |dc|) + 1` cells; cell `i` is the anchor moved `i` times by `(sign dr, sign dc)` |
| WordSearchGame.SelectedEndsAtPointer | src/components/WordSearchGame.js:164-176 | the last selected cell is the pointer cell exactly when the drag is horizontal, vertical or at 45 degrees |
| WordSearchGame.SnapCells | src/components/WordSearchGame.js:164-176 | corrected rasteriser: starts at the anchor and stays inside the rectangle spanned by the anchor and the pointer |
| WordSearchGame.SnapAgreesOnExactDrags | src/components/WordSearchGame.js:164-176 | on horizontal, vertical and 45-degree drags the corrected rasteriser selects what `getSelectedCells` selects |
| WordSearchGame.SelectedAlongSpan | src/components/WordSearchGame.js:164-176 | `getSelectedCells` from a placed word's first letter to its last gives the word's span, and from the last to the first gives the span reversed |
| WordSearchGame.SnapAlongSpan | src/components/WordSearchGame.js:164-176 | the corrected rasteriser gives the same spans, since a word's span is a straight or 45-degree drag |
| WordSearchGame.ReversedLine | src/components/WordSearchGame.js:164-176 | the line walked back from the last cell is the reverse of the line |
| WordSearchGame.ReadCells | src/components/WordSearchGame.js:145-147 | the lookup fails with a `TypeError` exactly when some selected row is outside the grid; cells holding letters read back as those letters |
| WordSearchGame.ReadSpan | src/components/WordSearchGame.js:145-149 | a spelled word reads back from its span, and its reverse from the reversed span |
| WordSearchGame.Mount | src/components/WordSearchGame.js:26-37 | no game, easy difficulty, the saved best times, invariant holds |
| WordSearchGame.NewGame | src/components/WordSearchGame.js:40-84 | starts a game on a grid of the difficulty's size, every cell an upper-case letter, with a distinct subsequence of the bank each of whose words is spelled somewhere in the grid, nothing found and the timer at zero; the invariant is kept |
| WordSearchGame.SetDifficulty | src/components/WordSearchGame.js:237-241 | the difficulty only changes while no game is running |
| WordSearchGame.CellSelect | src/components/WordSearchGame.js:117-139 | only the selection changes; the first cell anchors it; a later cell keeps the anchor and highlights `max(|dr|, |dc|) + 1` cells from the anchor, ending on the pointer exactly when the drag is straight or at 45 degrees |
| WordSearchGame.CellSelectSnapped | src/components/WordSearchGame.js:117-139 | corrected handler: a later cell highlights only cells in the rectangle spanned by the anchor and the pointer |
| WordSearchGame.Enter | src/components/WordSearchGame.js:302-304 | entering a cell runs `handleCellSelect` while a selection is in progress and otherwise does nothing |
| WordSearchGame.CellSelectKeepsInv | src/components/WordSearchGame.js:117-139 | pressing or entering a grid cell keeps the anchor on the grid and the highlighted cells starting at it |
| WordSearchGame.SnappedSelectionStaysInGrid | src/components/WordSearchGame.js:117-139 | with the corrected handler, pressing or entering a grid cell keeps every highlighted cell in the grid |
| WordSearchGame.SelectionEnd | src/components/WordSearchGame.js:142-161 | without an anchor nothing happens; otherwise it throws exactly when a selected row is off the grid, else it clears the selection and adds at most one unfound placed word |
| WordSearchGame.Release | src/components/WordSearchGame.js:149-158 | the forward reading is tried first, then the reversed one, each only when it is an unfound placed word |
| WordSearchGame.SelectionEndKeepsInv | src/components/WordSearchGame.js:142-161 | a release that does not throw keeps the found words a duplicate-free subset of the placed words; a release over highlighted cells that all lie in the grid never throws |
| WordSearchGame.Drag | src/components/WordSearchGame.js:117-139 | pressing one cell and moving to another highlights `getSelectedCells` between them |
| WordSearchGame.DragFindsWord | src/components/WordSearchGame.js:117-161 | with the handlers as written, dragging over an unfound placed word from first to last letter and releasing adds exactly that word |
| WordSearchGame.ReverseDragFindsWord | src/components/WordSearchGame.js:117-161 | with the handlers as written, dragging from the last letter back to the first adds the word, or its reverse when that is itself an unfound placed word |
| WordSearchGame.CompleteIffAllFound | src/components/WordSearchGame.js:191 | `foundWords.length === words.length` holds exactly when every placed word has been found |
| WordSearchGame.Tick | src/components/WordSearchGame.js:179-187 | the timer advances exactly while a started game has unfound words |
| WordSearchGame.RecordBest | src/components/WordSearchGame.js:190-205 | on completion the difficulty's best becomes the timer when there was none or it was 0, and otherwise the smaller of the best and the timer; other difficulties keep theirs; nothing changes before completion |
| WordSearchGame.RecordBestIdempotent | src/components/WordSearchGame.js:190-205 | recording the best time a second time changes nothing more |
| WordSearchGame.OvershootLeavesGrid | src/components/WordSearchGame.js:164-176 | as written, pressing (1,0) and moving to (0,7) on an 8×8 grid selects rows above the grid, and the release throws |
| WordSearchGame.SnappedGestureStaysInGrid | src/components/WordSearchGame.js:164-176 | with the corrected rasteriser the same gesture selects row 1, columns 0..7, and the release succeeds |
| Memory.EmojiCounts | src/components/MemoryGame.js:7-24 | in the emoji theme as written seven emoji occur twice and 🎢 and 🎠 once each |
| Memory.EmojiNeverCompletes | src/components/MemoryGame.js:126-136 | in any reachable state of an emoji game dealt as written at most seven faces are matched, so the game is not won and the timer keeps running |
| Memory.EmojiIsNoPairDeck | src/components/MemoryGame.js:7-24 | the emoji theme as written is not eight faces twice each |
| Memory.PlayKeepsInv | src/components/MemoryGame.js:94-121 | any run of clicks keeps the invariant |
| Memory.EmojiGameNeverWon | src/components/MemoryGame.js:74-136 | after dealing the emoji theme as written, no run of clicks completes the game |
| Memory.SymbolsAndAnimalsArePairDecks | src/components/MemoryGame.js:25-60 | the symbol and animal themes hold eight distinct faces twice each |
| Memory.FixedEmojiIsOneEdit | src/components/MemoryGame.js:7-24 | the corrected themes differ from the themes as written in the ninth emoji card only |
| Memory.FixedEmojiIsPairDeck | src/components/MemoryGame.js:7-24 | the corrected emoji theme holds its eight emoji twice each |
| Memory.ThemesArePairDecks | src/components/MemoryGame.js:6-60 | with the emoji theme corrected every theme holds eight distinct faces twice each; as written, exactly the symbol and animal themes do |
| Memory.Mount | src/components/MemoryGame.js:64-71 | no cards, no game, emoji theme, invariant holds |
| Memory.SetTheme | src/components/MemoryGame.js:167-170 | the theme only changes while no game is running |
| Memory.Initialize | src/components/MemoryGame.js:74-91 | the table is a permutation of the theme's cards as written, with ids 0..15; flipped, matched, moves and timer restart; the game starts |
| Memory.Click | src/components/MemoryGame.js:94-121 | ignored when two cards are up, the card is up, or its face is matched; otherwise the card turns up, the second card costs one move, and an equal pair records its face and turns both back |
| Memory.ClickKeepsInv | src/components/MemoryGame.js:94-121 | at most two distinct cards are up, none of a matched face, and matched faces stay distinct |
| Memory.MatchKeepsInv | src/components/MemoryGame.js:110-113 | a recorded pair's face was unmatched, so `matchedPairs` never repeats a face |
| Memory.ClickKeepsDeal | src/components/MemoryGame.js:94-121 | clicks never change the cards on the table |
| Memory.FlipBack | src/components/MemoryGame.js:116-118 | the delayed flip-back empties `flippedIndices` and changes nothing else |
| Memory.Tick | src/components/MemoryGame.js:124-132 | the timer advances exactly while a started game has fewer than eight matched faces |
| Memory.PlayAppend | src/components/MemoryGame.js:94-121 | playing two click runs in turn is playing their concatenation |
| Memory.PlayPair | src/components/MemoryGame.js:103-113 | clicking the two cards of an unmatched face records it with one move |
| Memory.FindPair | src/components/MemoryGame.js:74-83 | a face dealt twice is found at two distinct table positions |
| Memory.Solve | src/components/MemoryGame.js:94-136 | on a pair deck, clicking each face's two cards in turn matches all eight faces in eight moves |
| Memory.Win | src/components/MemoryGame.js:136 | corrected half: every fresh deal of a theme whose cards are eight faces twice each can be won |
| AdminProjects.DefaultForm | src/app/admin/projects/page.js:11-21 | empty fields, "Web Development", not featured, order 0 |
| AdminProjects.TrimAll | src/app/admin/projects/page.js:51 | each entry is trimmed, and the list length is kept |
| AdminProjects.ParseTechnologies | src/app/admin/projects/page.js:49-51 | one entry more than the commas in the text; entry `i` is the `i`-th comma-separated piece trimmed, so it has no surrounding white space and no comma |
| AdminProjects.Edit | src/app/admin/projects/page.js:123-129 | opens the project for editing, and a list of plain entries parses back to itself |
| AdminProjects.TechnologiesRoundTrip | src/app/admin/projects/page.js:49-51 | `join(", ")` followed by split and trim gives back any non-empty list of trimmed, comma-free entries |
| AdminProjects.EmptyListComesBackBlank | src/app/admin/projects/page.js:49-51 | an empty list comes back as one blank entry |
| AdminProjects.SubmitRequest | src/app/admin/projects/page.js:47-66 | `PUT /api/projects/{id}` exactly while editing, otherwise `POST /api/projects`; the body carries every form field unchanged, with the technologies parsed into a list |
| AdminProjects.EditThenSubmit | src/app/admin/projects/page.js:54-58 | opening a project and submitting it untouched updates that project with its own fields |
| AdminProjects.Submitted | src/app/admin/projects/page.js:80-97 | a successful submit resets the form and ends the edit; a failed one changes nothing |
| AdminProjects.CancelEdit | src/app/admin/projects/page.js:309-325 | "Cancel Edit" resets the form and ends the edit |
| AdminProjects.CancelMatchesSubmit | src/app/admin/projects/page.js:312-325 | cancelling and a successful submit leave the same page, whose next submit is a `POST` |
| Text.Split | src/app/admin/projects/page.js:50 | `split(",")` gives one piece more than there are commas, none containing a comma, and joining them with commas gives the text back |
| Text.SplitFirst | src/server/controllers/viewController.js:11 | the first piece of `split` is the text before the first separator, or the whole text when there is none |
| Text.Trim | src/app/admin/projects/page.js:51 | the result has no white space at either end |
| Text.TrimDropsOnlySpace | src/app/admin/projects/page.js:51 | `trim` is a slice of the text that drops only white space |
| Text.ToLower | src/app/projects/page.js:49-50 | lowers each upper-case letter and keeps every other character |
| ProjectsPage.FilteredProjects | src/app/projects/page.js:45-52 | an order-preserving subsequence holding exactly the projects in the category that match the search; with a category chosen, every result has that category |
| ProjectsPage.AllIsSearchOnly | src/app/projects/page.js:46-47 | "All" imposes no category constraint |
| ProjectsPage.EmptyQueryMatchesAll | src/app/projects/page.js:48-50 | the empty query matches every project, so "All" with no query shows everything |
| ProjectsPage.SearchIgnoresQueryCase | src/app/projects/page.js:49-50 | the query's letter case does not change the result |
| ProjectsPage.CategoryThenSearch | src/app/projects/page.js:45-52 | filtering by category and then by search gives the same list as the combined filter |
| Skills.Decode | src/components/Skills.js:98-106 | a failed status is an HTTP error, a body without an array is a format error, and otherwise the skills are the array |
| Skills.MapCategory | src/components/Skills.js:113 | the categories of the skills, position by position |
| Skills.CategoryList | src/components/Skills.js:111-114 | "All" first, then each skill category exactly once and no other |
| Skills.CategoriesInFirstOccurrenceOrder | src/components/Skills.js:111-114 | the categories after "All" appear in the order of their first occurrence |
| Skills.Loaded | src/components/Skills.js:93-122 | success stores the skills and their categories; failure stores the error, empties the skills and keeps the categories |
| Skills.FilteredSkills | src/components/Skills.js:128-131 | "All" gives the skills unchanged; another category gives exactly its skills, as a subsequence |
| Skills.FilterByCategory | src/components/Skills.js:128-131 | a category's list is the skills at the positions whose category matches, in order |
| Skills.NoEmptyCategory | src/components/Skills.js:111-131 | every listed category other than "All" shows at least one skill |
| Seqs.TakeSubseq | src/components/Projects.js:25-27 | a prefix of a list is a subsequence of it |
| FeaturedProjects.Featured | src/components/Projects.js:25-27 | at most three projects, all featured, in their original order |
| FeaturedProjects.OnlyOverflowIsDropped | src/components/Projects.js:25-27 | a featured project is left out only when three are already shown |
| FeaturedProjects.ShownAreLeading | src/components/Projects.js:25-27 | the shown projects are the leading featured projects |
| FeaturedProjects.Loaded | src/components/Projects.js:17-31 | a failed response shows "Failed to fetch projects"; a good one shows the featured top three |
| FeaturedProjects.Chips | src/components/Projects.js:106 | `min(3, n)` chips: the leading technologies |
| FeaturedProjects.Badge | src/components/Projects.js:114-118 | the "+k more" badge appears exactly when there are more than three technologies |
| FeaturedProjects.ChipsAndBadgeCoverAll | src/components/Projects.js:106-118 | the chips plus the badge count add up to the number of technologies, and a badge never reads "+0" |
| ViewController.FirstHop | src/server/controllers/viewController.js:11 | the text before the first comma, or the whole header when it has none, with surrounding white space trimmed; it holds no comma |
| ViewController.Normalize | src/server/controllers/viewController.js:13 | `::1` becomes `127.0.0.1` and no other address is rewritten |
| ViewController.ClientIp | src/server/controllers/viewController.js:10-13 | never `::1`; with a forwarded header, the normalised first hop; otherwise the normalised request address, else `127.0.0.1` |
| ViewController.ForwardedFirstHopWins | src/server/controllers/viewController.js:10-11 | with a non-empty forwarded header, with or without commas, the address is the normalised trimmed text before its first comma, whatever the request address |
| ViewController.BlankFirstHopRejected | src/server/controllers/viewController.js:10-34 | a header `", 10.0.0.1"` yields the empty address, whose save fails: the visit is answered with status 500 and nothing is stored |
| ViewController.FallsBackToRequestIp | src/server/controllers/viewController.js:11-13 | without a header the request address is used, else `127.0.0.1` |
| ViewController.Record | src/server/controllers/viewController.js:15-34 | `findOne` then `save`: an address already stored is reported as existing and the store is unchanged; an empty new address fails the save and is answered with status 500, store unchanged; any other new address is stored once, and no other count changes; no empty address is ever stored |
| ViewController.Save | src/server/models/viewModel.js:5 | saving fails exactly for the empty address, which the schema requires; otherwise it adds one document for the address and no other |
| ViewController.RecordCount | src/server/controllers/viewController.js:15-34 | the count grows by one exactly for a new, non-empty address |
| ViewController.RecordsEveryVisitor | src/server/controllers/viewController.js:15-34 | after a run of visits the store holds exactly the earlier addresses and the non-empty visitors, none twice and never the empty address |
| ViewController.CountsDistinctVisitors | src/server/controllers/viewController.js:15-34 | with visits handled one after the other, the view count is the number of distinct non-empty visitor addresses, never more than the visits |
| ViewController.OverlappingVisitsStoreTwice | src/server/models/viewModel.js:3-8 | two saves of a non-empty address that both look-ups missed both succeed and store it twice: the count grows by two |
| ViewController.RepeatVisitIgnored | src/server/controllers/viewController.js:15-21 | a second visit from the same address changes nothing, and a non-empty address is then reported as existing |

## Left out

- Rendering, class names, animation and the `isFound` highlight: presentational.
- Real time. The `setInterval`/`setTimeout` timers are modelled as explicit `Tick` and
  `FlipBack` steps.
- Timer cancellation when a game is replaced.
- `Math.random` and the `sort(() => Math.random() - 0.5)` shuffles: each becomes a
  parameter constrained to the values it can produce.
- `localStorage`, which the best time and best score are read from and written to. The
  saved best times are a `Mount` parameter.
- The memory score `Math.round(10000 / (moves * Math.sqrt(timer)))` and its best-score
  rule: floating point.
- `testBoardGeneration`: a console-only self-check. The properties it logs are
  `SolutionUnits` and `IsValid`.
- `fetch`, `response.json()`, the toasts, the loading flags, `fetchProjects`,
  `handleDelete`, `handleSeed` and field-by-field form editing in the admin page: network I/O
  and input plumbing. Only the request a submit builds and the resets are modelled.
- The fetch and loading states of the projects page: its list is the `projects` parameter.
- The database, `dbConnect` and the error answers of the view controller other than the
  failed save of an empty address: the collection is a multiset of addresses. Requests
  run one at a time; the interleaving of two overlapping requests is stated only by
  `OverlappingVisitsStoreTwice`.
- ViewController.CountsDistinctVisitors: holds for visits handled one after the other.
  Overlapping first visits from one address can store it twice.
- Sudoku.FillBoard: only soundness is proved. Whether the fill of the empty board succeeds
  is not proved; it is the `filled` result of `GenerateBoard`.
- Sudoku.Carve: the removal loop draws cells from a finite sequence. When the draws name
  fewer distinct filled cells than are to be cleared, the result is `None`, while the
  source keeps drawing.
- SudokuGame.CellsToClear: the contract states only the 1..80 bound; the values 30, 40 and
  50 are in its body.
- SudokuGame.NumberInput: the digit is typed `1..9`, because only the number pad calls it.
- WordSearch.InitializeGame: the drawn directions, starts and noise letters are functions of
  the word and attempt number.
- Memory.Initialize: the shuffle is any permutation of the theme's cards as written, passed in.
- Memory: a face is one Dafny `char`. Every face of every theme is a single code point, so
  JavaScript string equality on the faces is character equality.
- Memory.Win: stated for a corrected deck of eight faces twice each; the emoji theme as
  written is not one (see Findings).
- SudokuGame.StartNewGame: takes the generated puzzle as a parameter. The link from the
  difficulty to the number of cleared cells is stated by `NewGame` and `SwitchDifficulty`.
- SudokuGame.ChangeDifficulty: likewise takes the puzzle; `SwitchDifficulty` adds the
  generator call.
- WordSearchGame.SelectionEndKeepsInv: a release never throws only when every highlighted
  cell is in the grid; as written, an off-angle drag can highlight cells outside it.
- AdminProjects.TechnologiesRoundTrip: holds for non-empty lists of trimmed, comma-free
  entries only. An empty list comes back as `[""]` (`EmptyListComesBackBlank`), and entries
  with commas or outer spaces change.
- AdminProjects.SubmitRequest: the body carries the form fields only. The extra fields the
  edited project spreads into the form (`_id`, timestamps) are not modelled.
- Text.ToLower: lowers `A`–`Z` only; JavaScript's `toLowerCase` also lowers other scripts.
- Skills.Decode: a response body is `NoData`, `NotArray` or an array of skills. The many
  falsy or malformed JSON values the check rejects are folded into the first two.
- FeaturedProjects.Loaded: a successful answer whose `data` is not an array, which would
  throw in `filter`, is not modelled.

## Findings

| source | as written | input that shows it | evidently intended | confidence | as-written member | corrected member |
|---|---|---|---|---|---|---|
| src/components/WordSearchGame.js:164-176 | `getSelectedCells` steps by the signs of the row and column distances for `max(|dr|, |dc|) + 1` cells, so an off-angle drag overshoots the pointer along the shorter axis | 8×8 grid: press (1,0), move to (0,7). The cells are (1,0), (0,1), (-1,2), … (-6,7). `grid[-1]` is undefined, so `grid[row][col]` throws a `TypeError` on release (and in the `isFound` render once a word is found) | the selection snaps to one of the eight directions and stays between the anchor and the pointer, hence inside the grid | high (not executed) | WordSearchGame.OvershootLeavesGrid | WordSearchGame.SnappedGestureStaysInGrid |
| src/components/MemoryGame.js:7-24 | the emoji theme lists 🎢 and 🎠 once each and seven emoji twice | any emoji game: at most seven faces can match, so `matchedPairs.length === 8` never holds, the timer never stops and the win screen never shows | eight emoji twice each, as in the other two themes | high (not executed) | Memory.EmojiGameNeverWon | Memory.Win |
