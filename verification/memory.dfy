/** `MemoryGame.js`: the card themes, `initializeGame`, `handleCardClick`, the delayed
    flip-back of an unmatched pair and the completion condition `matchedPairs.length === 8`.
    The shuffle is a parameter: any permutation of the theme. */
module Memory {
  import opened Seqs

  /** A card face. Every face of every theme is a single emoji or symbol, one code point. */
  type Face = char

  /** The theme `<select>`. */
  datatype Theme = Emoji | Symbols | Animals

  /** The first eight cards of `CARD_THEMES.emoji`: eight distinct emoji. */
  const EmojiRowOne: seq<Face> := [
    '\U{1F3AE}', '\U{1F3B2}', '\U{1F3AF}', '\U{1F3A8}', '\U{1F3AD}', '\U{1F3AA}', '\U{1F3A2}', '\U{1F3A1}']

  /** The last eight cards of `CARD_THEMES.emoji`: 🎠 where the first row has 🎢. */
  const EmojiRowTwo: seq<Face> := [
    '\U{1F3A0}', '\U{1F3AA}', '\U{1F3AD}', '\U{1F3A8}', '\U{1F3AF}', '\U{1F3B2}', '\U{1F3AE}', '\U{1F3A1}']

  /** `CARD_THEMES.emoji` as written: seven emoji twice, and 🎢 and 🎠 once each. */
  const EmojiCards: seq<Face> := EmojiRowOne + EmojiRowTwo

  /** The seven emoji that `CARD_THEMES.emoji` holds twice. */
  const EmojiPairs: seq<Face> := [
    '\U{1F3AE}', '\U{1F3B2}', '\U{1F3AF}', '\U{1F3A8}', '\U{1F3AD}', '\U{1F3AA}', '\U{1F3A1}']

  /** `CARD_THEMES.symbols`: ♠ ♣ ♥ ♦ ★ ☀ ☁ ☂, twice. */
  const SymbolFaces: seq<Face> := [
    '\U{2660}', '\U{2663}', '\U{2665}', '\U{2666}', '\U{2605}', '\U{2600}', '\U{2601}', '\U{2602}']

  /** `CARD_THEMES.animals`: 🐶 🐱 🐭 🐹 🐰 🦊 🐻 🐼, twice. */
  const AnimalFaces: seq<Face> := [
    '\U{1F436}', '\U{1F431}', '\U{1F42D}', '\U{1F439}', '\U{1F430}', '\U{1F98A}', '\U{1F43B}', '\U{1F43C}']

  /** The corrected last row: the ninth card 🎠 replaced by a second 🎢. */
  const FixedEmojiRowTwo: seq<Face> := [
    '\U{1F3A2}', '\U{1F3AA}', '\U{1F3AD}', '\U{1F3A8}', '\U{1F3AF}', '\U{1F3B2}', '\U{1F3AE}', '\U{1F3A1}']

  /** The emoji theme with eight pairs. */
  const FixedEmojiCards: seq<Face> := EmojiRowOne + FixedEmojiRowTwo

  /** `CARD_THEMES[theme]` as written. */
  function ThemeCardsAsWritten(t: Theme): seq<Face> {
    match t
    case Emoji => EmojiCards
    case Symbols => SymbolFaces + SymbolFaces
    case Animals => AnimalFaces + AnimalFaces
  }

  /** `CARD_THEMES[theme]` with the emoji theme corrected to eight pairs; the deal uses it. */
  function ThemeCards(t: Theme): seq<Face> {
    match t
    case Emoji => FixedEmojiCards
    case Symbols => SymbolFaces + SymbolFaces
    case Animals => AnimalFaces + AnimalFaces
  }

  /** The eight faces of a theme. */
  function ThemeFaces(t: Theme): seq<Face> {
    match t
    case Emoji => EmojiRowOne
    case Symbols => SymbolFaces
    case Animals => AnimalFaces
  }

  /** Every theme deals sixteen cards, as written and corrected. */
  lemma ThemeSize(t: Theme)
    ensures |ThemeCardsAsWritten(t)| == 16 && |ThemeCards(t)| == 16
  {
  }

  /** A deck of eight distinct faces, each on exactly two cards. */
  ghost predicate PairDeck(deck: seq<Face>, faces: seq<Face>) {
    |deck| == 16 && |faces| == 8 && NoDup(faces) &&
    forall c :: multiset(deck)[c] == if c in faces then 2 else 0
  }

  /** A face listed twice in a row of distinct faces makes a pair deck. */
  lemma DoubledIsPairDeck(faces: seq<Face>)
    requires |faces| == 8 && NoDup(faces)
    ensures PairDeck(faces + faces, faces)
  {
    forall c ensures multiset(faces + faces)[c] == if c in faces then 2 else 0 {
      NoDupOccursOnce(faces, c);
    }
  }

  /** The symbol and animal themes hold eight distinct symbols twice each. */
  lemma SymbolsAndAnimalsArePairDecks()
    ensures PairDeck(ThemeCards(Symbols), SymbolFaces)
    ensures PairDeck(ThemeCards(Animals), AnimalFaces)
  {
    DoubledIsPairDeck(SymbolFaces);
    DoubledIsPairDeck(AnimalFaces);
  }

  lemma RowsDistinct()
    ensures NoDup(EmojiRowOne) && NoDup(EmojiRowTwo) && NoDup(FixedEmojiRowTwo) && NoDup(EmojiPairs)
  {
  }

  /** The emoji held by both rows as written. */
  lemma EmojiRowsShare(c: Face)
    ensures c in EmojiPairs <==> c in EmojiRowOne && c in EmojiRowTwo
    ensures c in ['\U{1F3A2}', '\U{1F3A0}'] <==> (c in EmojiRowOne) != (c in EmojiRowTwo)
  {
  }

  /** The corrected rows hold the same emoji. */
  lemma FixedRowsShare(c: Face)
    ensures c in EmojiRowOne <==> c in FixedEmojiRowTwo
  {
  }

  /** In the emoji theme as written seven emoji occur twice, 🎢 and 🎠 once, and
      nothing else at all. */
  lemma EmojiCounts(c: Face)
    ensures multiset(EmojiCards)[c] == if c in EmojiPairs then 2 else if c in ['\U{1F3A2}', '\U{1F3A0}'] then 1 else 0
  {
    RowsDistinct();
    NoDupOccursOnce(EmojiRowOne, c);
    NoDupOccursOnce(EmojiRowTwo, c);
    EmojiRowsShare(c);
  }

  /** The corrected themes differ from the themes as written in the ninth emoji card only. */
  lemma FixedEmojiIsOneEdit(t: Theme)
    ensures t != Emoji ==> ThemeCards(t) == ThemeCardsAsWritten(t)
    ensures t == Emoji ==> ThemeCards(t) == ThemeCardsAsWritten(t)[8 := '\U{1F3A2}']
  {
  }

  /** Each emoji of the first row occurs twice in the corrected theme, nothing else occurs. */
  lemma FixedEmojiCount(c: Face)
    ensures multiset(FixedEmojiCards)[c] == if c in EmojiRowOne then 2 else 0
  {
    RowsDistinct();
    NoDupOccursOnce(EmojiRowOne, c);
    NoDupOccursOnce(FixedEmojiRowTwo, c);
    FixedRowsShare(c);
  }

  /** The corrected emoji theme holds the eight distinct emoji of its first row twice each. */
  lemma FixedEmojiIsPairDeck()
    ensures PairDeck(FixedEmojiCards, EmojiRowOne)
  {
    RowsDistinct();
    forall c ensures multiset(FixedEmojiCards)[c] == if c in EmojiRowOne then 2 else 0 {
      FixedEmojiCount(c);
    }
  }

  /** With the emoji theme corrected, every theme holds its eight faces twice each; as
      written, every theme but the emoji theme does. */
  lemma ThemesArePairDecks(t: Theme)
    ensures PairDeck(ThemeCards(t), ThemeFaces(t))
    ensures PairDeck(ThemeCardsAsWritten(t), ThemeFaces(t)) <==> t != Emoji
  {
    match t
    case Emoji =>
      FixedEmojiIsPairDeck();
      EmojiIsNoPairDeck(ThemeFaces(t));
    case Symbols => SymbolsAndAnimalsArePairDecks();
    case Animals => SymbolsAndAnimalsArePairDecks();
  }

  /** The emoji theme as written is no pair deck, whatever eight faces are proposed:
      🎢 occurs exactly once. */
  lemma EmojiIsNoPairDeck(faces: seq<Face>)
    ensures !PairDeck(ThemeCardsAsWritten(Emoji), faces)
  {
    EmojiCounts('\U{1F3A2}');
  }

  /** A card: its position at dealing time and its face. */
  datatype Card = Card(id: nat, content: Face)

  /** The component state. `flipped` is `flippedIndices`, `matched` is `matchedPairs`. */
  datatype Game = Game(
    cards: seq<Card>,
    flipped: seq<nat>,
    matched: seq<Face>,
    moves: nat,
    started: bool,
    timer: nat,
    theme: Theme)

  /** The faces of the cards, in table order. */
  function Faces(cards: seq<Card>): (fs: seq<Face>)
    ensures |fs| == |cards| && forall i :: 0 <= i < |cards| ==> fs[i] == cards[i].content
  {
    seq(|cards|, i requires 0 <= i < |cards| => cards[i].content)
  }

  /** Every flipped index names a card on the table. */
  predicate WellIndexed(g: Game) {
    forall k :: 0 <= k < |g.flipped| ==> g.flipped[k] < |g.cards|
  }

  /** What every reachable state satisfies, apart from the deal itself (`Dealt`). Before
      the first game there are no cards, and the ids are the table positions; at most two
      distinct cards are face up, none of them of a matched face, and two face-up cards
      always differ (a pair waiting to be turned back); the matched faces are distinct
      and each occurs on at least two cards. */
  predicate Inv(g: Game) {
    WellIndexed(g) && Table(g) && FlippedOk(g) && MatchedOk(g)
  }

  predicate Table(g: Game) {
    (!g.started ==> g.cards == [] && g.flipped == [] && g.matched == [])
    && (forall i :: 0 <= i < |g.cards| ==> g.cards[i].id == i)
  }

  /** Once started, the table is a permutation of the theme as written. */
  predicate Dealt(g: Game) {
    g.started ==> multiset(Faces(g.cards)) == multiset(ThemeCardsAsWritten(g.theme))
  }

  /** At most two distinct face-up cards, none of a matched face, and two of them never
      share a face. */
  predicate FlippedOk(g: Game)
    requires WellIndexed(g)
  {
    |g.flipped| <= 2 && NoDup(g.flipped)
    && (forall k :: 0 <= k < |g.flipped| ==> g.cards[g.flipped[k]].content !in g.matched)
    && (|g.flipped| == 2 ==> g.cards[g.flipped[0]].content != g.cards[g.flipped[1]].content)
  }

  /** Distinct matched faces, each on at least two cards. */
  predicate MatchedOk(g: Game) {
    NoDup(g.matched)
    && (forall k :: 0 <= k < |g.matched| ==> multiset(Faces(g.cards))[g.matched[k]] >= 2)
  }

  /** The initial state: no cards, emoji theme. */
  function Mount(): (g: Game)
    ensures Inv(g) && !g.started && g.theme == Emoji
  {
    Game([], [], [], 0, false, 0, Emoji)
  }

  /** The theme `<select>`, disabled while a game is running. */
  function SetTheme(g: Game, t: Theme): (g': Game)
    ensures g.started ==> g' == g
    ensures !g.started ==> g' == g.(theme := t)
    ensures Inv(g) && Dealt(g) ==> Inv(g') && Dealt(g')
  {
    if g.started then g else g.(theme := t)
  }

  /** `initializeGame()`: `shuffled` is the shuffled theme. The table holds exactly the
      theme's cards in that order with ids 0..15, and the counters and lists restart. */
  function Initialize(g: Game, shuffled: seq<Face>): (g': Game)
    requires multiset(shuffled) == multiset(ThemeCardsAsWritten(g.theme))
    ensures Inv(g')
    ensures Faces(g'.cards) == shuffled && |g'.cards| == 16
    ensures g'.started && g'.flipped == [] && g'.matched == [] && g'.moves == 0 && g'.timer == 0
    ensures g'.theme == g.theme
  {
    ThemeSize(g.theme);
    assert |shuffled| == |multiset(shuffled)| == |multiset(ThemeCardsAsWritten(g.theme))|;
    g.(cards := Deal(shuffled), flipped := [], matched := [], moves := 0, timer := 0, started := true)
  }

  /** The cards of a deal: face `faces[i]` on the card with id `i`. */
  function Deal(faces: seq<Face>): (cards: seq<Card>)
    ensures Faces(cards) == faces
    ensures forall i :: 0 <= i < |cards| ==> cards[i].id == i
  {
    var cards := seq(|faces|, i requires 0 <= i < |faces| => Card(i, faces[i]));
    assert Faces(cards) == faces;
    cards
  }

  /** The guard of `handleCardClick`: two cards already face up, the card itself face up,
      or its face already matched. */
  predicate Ignored(g: Game, index: nat)
    requires index < |g.cards|
  {
    |g.flipped| == 2 || index in g.flipped || g.cards[index].content in g.matched
  }

  /** `handleCardClick(index)`. An ignored click changes nothing. Otherwise the card is
      turned up; turning up the second card is one move, and a second card with the
      same face as the first records the face as matched and turns both back. */
  function Click(g: Game, index: nat): (g': Game)
    requires index < |g.cards| && WellIndexed(g)
    ensures WellIndexed(g') && g'.cards == g.cards && g'.started == g.started
    ensures g'.timer == g.timer && g'.theme == g.theme
    ensures Ignored(g, index) ==> g' == g
    ensures !Ignored(g, index) ==>
              g'.moves == g.moves + (if |g.flipped| == 1 then 1 else 0) &&
              (|g.flipped| == 0 ==> g'.flipped == [index] && g'.matched == g.matched)
    ensures !Ignored(g, index) && |g.flipped| == 1 ==>
              var c := g.cards[index].content;
              if g.cards[g.flipped[0]].content == c then g'.matched == g.matched + [c] && g'.flipped == []
              else g'.matched == g.matched && g'.flipped == g.flipped + [index]
  {
    if Ignored(g, index) then g
    else
      var f := g.flipped + [index];
      if |f| == 2 then
        var g1 := g.(moves := g.moves + 1);
        if g.cards[f[0]].content == g.cards[f[1]].content then
          g1.(matched := g.matched + [g.cards[f[0]].content], flipped := [])
        else g1.(flipped := f)
      else g.(flipped := f)
  }

  /** The `setTimeout` callback of an unmatched pair: both cards turn back. */
  function FlipBack(g: Game): (g': Game)
    ensures g'.flipped == [] && g' == g.(flipped := [])
    ensures Inv(g) ==> Inv(g')
    ensures Dealt(g) ==> Dealt(g')
  {
    g.(flipped := [])
  }

  /** Every click on a card on the table keeps the invariant. */
  lemma ClickKeepsInv(g: Game, index: nat)
    requires Inv(g) && index < |g.cards|
    ensures Inv(Click(g, index))
  {
    var g' := Click(g, index);
    if Ignored(g, index) {
    } else if |g.flipped| == 0 {
      assert g' == g.(flipped := [index]);
      assert Table(g');
    } else if g.cards[g.flipped[0]].content == g.cards[index].content {
      MatchKeepsInv(g, index);
    } else {
      assert g' == g.(moves := g.moves + 1, flipped := g.flipped + [index]);
      assert Table(g') && MatchedOk(g');
    }
  }

  /** A second card matching the first records a new, doubly present face. */
  lemma MatchKeepsInv(g: Game, index: nat)
    requires Inv(g) && index < |g.cards| && !Ignored(g, index) && |g.flipped| == 1
    requires g.cards[g.flipped[0]].content == g.cards[index].content
    ensures Inv(Click(g, index))
  {
    var i, c := g.flipped[0], g.cards[index].content;
    var g' := Click(g, index);
    assert g' == g.(moves := g.moves + 1, matched := g.matched + [c], flipped := []);
    var faces := Faces(g.cards);
    if i < index {
      TwoPositions(faces, i, index);
    } else {
      TwoPositions(faces, index, i);
    }
    assert NoDup(g'.matched) by {
      forall a, b | 0 <= a < b < |g'.matched| ensures g'.matched[a] != g'.matched[b] {
        if b == |g.matched| {
          assert g'.matched[a] == g.matched[a];
        }
      }
    }
    assert Table(g');
  }

  /** Clicks never change the deal. */
  lemma ClickKeepsDeal(g: Game, index: nat)
    requires WellIndexed(g) && index < |g.cards| && Dealt(g)
    ensures Dealt(Click(g, index))
  {
  }

  /** The game is won when eight faces are matched. */
  predicate Complete(g: Game) {
    |g.matched| == 8
  }

  /** One second of the timer effect: it runs while a started game is not won. */
  function Tick(g: Game): (g': Game)
    ensures g.started && |g.matched| < 8 ==> g'.timer == g.timer + 1
    ensures !(g.started && |g.matched| < 8) ==> g' == g
    ensures g' == g.(timer := g'.timer)
  {
    if g.started && |g.matched| < 8 then g.(timer := g.timer + 1) else g
  }

  /** In a state of the emoji theme at most seven faces are matched, so the game is never
      won and the timer never stops. */
  lemma {:induction false} EmojiNeverCompletes(g: Game)
    requires Inv(g) && Dealt(g) && g.theme == Emoji
    ensures |g.matched| <= 7 && !Complete(g)
  {
    if !g.started {
      return;
    }
    var ms := set c | c in g.matched;
    var ps := set c | c in EmojiPairs;
    forall c | c in ms ensures c in ps {
      var k :| 0 <= k < |g.matched| && g.matched[k] == c;
      EmojiCounts(c);
    }
    DistinctCount(g.matched);
    RowsDistinct();
    DistinctCount(EmojiPairs);
    SubsetSize(ms, ps);
  }

  /** Playing a sequence of clicks, one after the other. */
  function Play(g: Game, clicks: seq<nat>): (g': Game)
    requires WellIndexed(g) && forall k :: 0 <= k < |clicks| ==> clicks[k] < |g.cards|
    ensures WellIndexed(g') && g'.cards == g.cards && g'.started == g.started && g'.theme == g.theme
    decreases |clicks|
  {
    if |clicks| == 0 then g else Play(Click(g, clicks[0]), clicks[1..])
  }

  lemma {:induction false} PlayAppend(g: Game, a: seq<nat>, b: seq<nat>)
    requires WellIndexed(g)
    requires forall k :: 0 <= k < |a| ==> a[k] < |g.cards|
    requires forall k :: 0 <= k < |b| ==> b[k] < |g.cards|
    ensures Play(g, a + b) == Play(Play(g, a), b)
    decreases |a|
  {
    if |a| == 0 {
      assert a + b == b;
    } else {
      assert (a + b)[0] == a[0] && (a + b)[1..] == a[1..] + b;
      PlayAppend(Click(g, a[0]), a[1..], b);
    }
  }

  /** Any run of clicks keeps the invariant. */
  lemma {:induction false} PlayKeepsInv(g: Game, clicks: seq<nat>)
    requires Inv(g)
    requires forall k :: 0 <= k < |clicks| ==> clicks[k] < |g.cards|
    ensures Inv(Play(g, clicks))
    decreases |clicks|
  {
    if |clicks| > 0 {
      ClickKeepsInv(g, clicks[0]);
      PlayKeepsInv(Click(g, clicks[0]), clicks[1..]);
    }
  }

  /** A game of the emoji theme as written is never won, whatever the shuffle and however
      the cards are clicked. */
  lemma EmojiGameNeverWon(g: Game, shuffled: seq<Face>, clicks: seq<nat>)
    requires g.theme == Emoji && multiset(shuffled) == multiset(ThemeCardsAsWritten(Emoji))
    requires forall k :: 0 <= k < |clicks| ==> clicks[k] < 16
    ensures !Complete(Play(Initialize(g, shuffled), clicks))
  {
    var g0 := Initialize(g, shuffled);
    PlayKeepsInv(g0, clicks);
    var g1 := Play(g0, clicks);
    assert Faces(g1.cards) == shuffled && g1.started && g1.theme == Emoji;
    EmojiNeverCompletes(g1);
  }

  /** With no card face up, clicking the two cards of an unmatched face matches it in one move. */
  lemma PlayPair(g: Game, i: nat, j: nat)
    requires WellIndexed(g) && g.flipped == [] && i < |g.cards| && j < |g.cards| && i != j
    requires g.cards[i].content == g.cards[j].content && g.cards[i].content !in g.matched
    ensures Play(g, [i, j]) == g.(moves := g.moves + 1, matched := g.matched + [g.cards[i].content])
  {
    var one := Click(g, i);
    assert one == g.(flipped := [i]);
    var two := Click(one, j);
    assert (one.flipped + [j])[0] == i;
    assert two == g.(moves := g.moves + 1, matched := g.matched + [g.cards[i].content]);
    assert [i, j][0] == i && [i, j][1..] == [j];
    assert Play(g, [i, j]) == Play(one, [j]);
    assert [j][0] == j && [j][1..] == [];
    assert Play(one, [j]) == Play(two, []);
  }

  /** Two positions of a face that occurs at least twice. */
  method FindPair(deck: seq<Face>, c: Face) returns (i: nat, j: nat)
    requires multiset(deck)[c] >= 2
    ensures i < |deck| && j < |deck| && i != j && deck[i] == c && deck[j] == c
  {
    ghost var a, b := TwoOccurrences(deck, c);
    i :| 0 <= i < |deck| && deck[i] == c;
    assert a != i || b != i;
    j :| 0 <= j < |deck| && deck[j] == c && j != i;
  }

  /** With a deck of eight pairs the game can be won: clicking the two cards of each face
      in turn matches all eight faces in eight moves. */
  method Solve(g: Game, faces: seq<Face>) returns (clicks: seq<nat>)
    requires Inv(g) && g.started && g.flipped == [] && g.matched == []
    requires PairDeck(Faces(g.cards), faces)
    ensures forall k :: 0 <= k < |clicks| ==> clicks[k] < |g.cards|
    ensures Complete(Play(g, clicks)) && Play(g, clicks).matched == faces
    ensures Play(g, clicks).moves == g.moves + 8
  {
    clicks := [];
    var cur := g;
    var deck := Faces(g.cards);
    for k := 0 to 8
      invariant SolvedUpTo(g, faces, clicks, cur, k)
    {
      var c := faces[k];
      var i, j := FindPair(deck, c);
      SolveStep(g, faces, clicks, cur, k, i, j);
      clicks := clicks + [i, j];
      cur := cur.(moves := cur.moves + 1, matched := cur.matched + [c]);
    }
    assert faces[..8] == faces;
  }

  /** After `k` rounds of `Solve`: `clicks` replayed from `g` gives `cur`, with no card
      face up, the first `k` faces matched and `k` moves made. */
  predicate SolvedUpTo(g: Game, faces: seq<Face>, clicks: seq<nat>, cur: Game, k: nat)
    requires WellIndexed(g)
  {
    && (forall m :: 0 <= m < |clicks| ==> clicks[m] < |g.cards|)
    && k <= |faces|
    && cur == Play(g, clicks)
    && cur.cards == g.cards && cur.flipped == [] && cur.matched == faces[..k]
    && cur.moves == g.moves + k
  }

  /** One round of `Solve`: clicking the two cards of the next face matches it. */
  lemma SolveStep(g: Game, faces: seq<Face>, clicks: seq<nat>, cur: Game, k: nat, i: nat, j: nat)
    requires WellIndexed(g) && k < |faces| && NoDup(faces)
    requires SolvedUpTo(g, faces, clicks, cur, k)
    requires i < |g.cards| && j < |g.cards| && i != j
    requires g.cards[i].content == faces[k] && g.cards[j].content == faces[k]
    ensures SolvedUpTo(g, faces, clicks + [i, j],
                       cur.(moves := cur.moves + 1, matched := cur.matched + [faces[k]]), k + 1)
  {
    var c := faces[k];
    assert c !in faces[..k] by {
      forall m | 0 <= m < k ensures faces[m] != c { }
    }
    PlayPair(cur, i, j);
    PlayAppend(g, clicks, [i, j]);
    assert faces[..k + 1] == faces[..k] + [c];
  }

  /** Every fresh deal of a corrected theme can be won: some run of clicks matches all
      eight faces. */
  method Win(g: Game) returns (clicks: seq<nat>)
    requires Inv(g) && g.started && g.flipped == [] && g.matched == []
    requires multiset(Faces(g.cards)) == multiset(ThemeCards(g.theme))
    ensures forall k :: 0 <= k < |clicks| ==> clicks[k] < |g.cards|
    ensures Complete(Play(g, clicks))
  {
    ThemesArePairDecks(g.theme);
    assert |Faces(g.cards)| == |multiset(ThemeCards(g.theme))| == 16;
    clicks := Solve(g, ThemeFaces(g.theme));
  }
}
