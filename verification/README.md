# Rock-paper-scissors card game: deck construction and card face

This project models the logic in the two core scripts of a Unity
rock-paper-scissors card game:

- `Card`: a card holds two independent fields, whether it lies face-up and its
  `CardType`. A new card's renderer keeps the prefab's sprite. After any
  `Flip` or `UpdateProperties` it shows the back sprite while face-down.
  Face-up, it shows the sprite of the first row of the card's properties table
  whose type matches, or the zero-initialised default record (null sprite)
  when no row matches.
- `GameManager.StartGame`: clears the card list and runs its loop while
  `i < roundNum * 6`, with that product computed in 32-bit `int` arithmetic.
  That is `6 * roundNum` cards when `0 < roundNum <= 357913941`, and no
  cards when `-357913941 <= roundNum <= 0`. Only outside
  `-357913941..357913941` does the product wrap around; the loop bound then
  equals `6 * roundNum` up to a multiple of 2^32 (see `DeckSize`,
  `DeckSizeCongruent` and `DeckSizeWraps`).
  Each card is flipped face-down, and the card at loop index `i` gets
  `(CardType)(i / roundNum * 2)`. The two scores start at zero and `StartGame`
  does not touch them.

The model is functional. A card is an immutable `Card` record, and each
setter returns a new record. `shown` is the sprite the renderer holds. The
sprite that the fields call for is `Displayed`.

`CardType` is a C# enum over `int`, and a cast can store any `int` in it.
The model therefore represents it as a 32-bit integer, with `Rock = 0`,
`Paper = 1` and `Scissors = 2`. This keeps the undeclared kinds 4, 6, 8 and
10 that deck construction produces representable.

Module `CSharpInt` writes out the C# integer semantics the loop relies on:
unchecked 32-bit wrap-around of `roundNum * 6` and of the doubling, and
division that truncates toward zero.

The proved consequences:
- For every `roundNum` the card at index `i` has kind `2 * (i / roundNum)`,
  where `/` is the Euclidean quotient (Dafny's `/`), which for a non-negative
  index equals C#'s truncating one; the doubling never wraps (`KindIndex`).
- For `0 < roundNum <= 357913941` the kinds come out in blocks of `roundNum`:
  Rock, then Scissors, then 4, 6, 8 and 10.
- A negative `roundNum` whose product wraps to a positive bound gives kinds
  0, -2, -4, ... in blocks of `|roundNum|`, so every kind is at most zero:
  `roundNum = -357913942` deals 2147483644 cards, and card 357913942 has kind
  -2 (`NegativeWrappedDeck`).
- For every `roundNum` each kind is even, so no card is ever Paper.
- For `0 < roundNum <= 357913941` exactly `roundNum` Rock and `roundNum`
  Scissors cards are created, and the other `4 * roundNum` cards have kinds
  outside the enum. When, in addition, the prefab's properties table lists
  only declared kinds, those cards show no sprite once face-up. Beyond that
  range the deck size wraps: `roundNum = 715827883` gives two cards, both Rock
  (`WrappedDeckIsTwoRocks`).

The kind expression parses as `(i / roundNum) * 2`, so for
`0 < roundNum <= 357913941` the kinds are not split evenly: `roundNum` Rock, no Paper, `roundNum` Scissors, and
`4 * roundNum` cards of undeclared kinds. `DeckComposition` and `DeckLayout`
state this.

## Model

| member | source | states |
|---|---|---|
| CSharpInt.Wrap | Assets/Scripts/GameManager.cs:47 | an `int` result is the true value when it fits, and otherwise differs from it by a multiple of 2^32 |
| CSharpInt.Div | Assets/Scripts/GameManager.cs:52 | C# `int` division: the remainder is smaller than the divisor in magnitude and has the sign of the dividend |
| CSharpInt.DivOfNonNegative | Assets/Scripts/GameManager.cs:52 | for the loop's non-negative index and any non-zero `roundNum`, of either sign, C#'s truncating quotient equals the Euclidean quotient (Dafny's `/`); for a negative divisor this differs from the floor quotient |
| Cards.GetProperties | Assets/Scripts/Card.cs:47-54 | the result is the first table row whose type equals the card's type (earlier rows do not match), and it is that row whichever first-match index is named; the default record when no row matches |
| Cards.GetPropertiesSkipsPrefix | Assets/Scripts/Card.cs:49-51 | rows before any row of the requested type do not affect the lookup |
| Cards.GetPropertiesIgnoresSuffix | Assets/Scripts/Card.cs:49-51 | once a prefix contains a matching row, rows after it do not affect the lookup |
| Cards.FirstMatchUnique | Assets/Scripts/Card.cs:49-51 | the "first matching row" the lookup returns is unique, which makes the lookup's result determinate |
| Cards.Displayed | Assets/Scripts/Card.cs:44 | face-down: the back sprite; face-up: the sprite of the first matching row, or no sprite when no row matches |
| Cards.UpdateSprite | Assets/Scripts/Card.cs:42-45 | afterwards the renderer shows what the fields call for; the fields themselves are unchanged |
| Cards.NewCard | Assets/Scripts/Card.cs:10-14 | a new card is face-down, its type is the enum's zero value, Rock, and its renderer keeps the prefab's sprite |
| Cards.Flip | Assets/Scripts/Card.cs:30-34 | sets the side to the argument, leaves type, back and table unchanged, and leaves the renderer in sync |
| Cards.UpdateProperties | Assets/Scripts/Card.cs:36-40 | sets the type to the argument, leaves side, back and table unchanged, and leaves the renderer in sync |
| Cards.FlipIdempotent | Assets/Scripts/Card.cs:30-34 | flipping to the same side twice gives the same card as flipping once |
| Cards.UpdatePropertiesIdempotent | Assets/Scripts/Card.cs:36-40 | setting the same type twice gives the same card as setting it once |
| Cards.FlipCommutesWithUpdateProperties | Assets/Scripts/Card.cs:30-40 | the two setters commute, because each changes a different field |
| Cards.FaceDownShowsBack | Assets/Scripts/Card.cs:44 | a face-down card shows its back whatever type it is given |
| Cards.UnlistedKindShowsNothing | Assets/Scripts/Card.cs:44-54 | a face-up card of an undeclared type, with a table listing only declared types, shows no sprite |
| Cards.RunFrame | Assets/Scripts/Card.cs:30-45 | after any sequence of calls the side is the last flip's, the type the last one set, back and table unchanged, and the renderer in sync |
| GameManager.DeckSize | Assets/Scripts/GameManager.cs:47 | the loop runs `6 * roundNum` times when that fits in an `int`, and not at all for non-positive `roundNum` down to `-357913941` |
| GameManager.DeckSizeCongruent | Assets/Scripts/GameManager.cs:47 | a non-empty deck's size is `6 * roundNum` up to a multiple of 2^32, whether or not the product wrapped |
| GameManager.DeckSizeWraps | Assets/Scripts/GameManager.cs:47 | beyond that range the wrapped product gives an empty, short or (for negative `roundNum`) non-empty deck |
| GameManager.WrappedDeckIsTwoRocks | Assets/Scripts/GameManager.cs:47-52 | with `roundNum = 715827883` the wrapped loop bound is 2, and both cards created are Rock |
| GameManager.KindIndex | Assets/Scripts/GameManager.cs:52 | for every `roundNum` with a non-empty deck, the type given at index `i` is exactly `2 * (i / roundNum)` (Euclidean quotient, Dafny's `/`, which for a non-negative index equals C#'s truncating one; no wrap-around), hence even; at most 0 for a negative `roundNum`; between 0 and 10 when `6 * roundNum` fits |
| GameManager.NegativeWrappedDeck | Assets/Scripts/GameManager.cs:47-52 | with `roundNum = -357913942` the wrapped bound is 2147483644, card 0 is Rock, card 357913942 has type -2, and no card has a positive type |
| GameManager.DeckCard | Assets/Scripts/GameManager.cs:50-52 | each created card is face-down, has the type for its index, shows the prefab's back and uses the prefab's table |
| GameManager.FillDeck | Assets/Scripts/GameManager.cs:47-55 | the loop appends in index order, so position `j` of the list holds the card created at index `j`, and the list has one card per iteration |
| GameManager.StartGame | Assets/Scripts/GameManager.cs:43-56 | the new list has exactly `DeckSize(roundNum)` cards, all face-down with their index's type; the scores are unchanged |
| GameManager.NewGame | Assets/Scripts/GameManager.cs:28-35 | a new manager keeps its prefab and `roundNum`, has both scores at zero, and a full deck whose card `j` is face-down with its index's type |
| GameManager.StartGameForgetsOldCards | Assets/Scripts/GameManager.cs:45 | the previous contents of the card list have no effect on the new deck |
| GameManager.NoPaperEver | Assets/Scripts/GameManager.cs:52 | for every `roundNum`, every created card's type is even, so none is Paper |
| GameManager.BlockCount | Assets/Scripts/GameManager.cs:47-52 | the first `n` cards contain as many of kind `2b` as they reach into block `b` of `roundNum` cards |
| GameManager.DeckLayout | Assets/Scripts/GameManager.cs:47-54 | for `0 < roundNum <= 357913941`: a card is Rock iff its index is below `roundNum`, Scissors iff it is in the second block, declared iff it is in the first two blocks, otherwise of type 4, 6, 8 or 10; the types never decrease along the list |
| GameManager.DeckComposition | Assets/Scripts/GameManager.cs:47-52 | for `0 < roundNum <= 357913941`: exactly `roundNum` Rock, no Paper, exactly `roundNum` Scissors, and `4 * roundNum` cards of types 4, 6, 8 and 10 |
| GameManager.FaceUpUndeclaredCardShowsNothing | Assets/Scripts/GameManager.cs:52 | for `0 < roundNum <= 357913941`, a deck card from the third block on, once face-up, shows no sprite when the table lists only declared types, because the lookup falls back to the default record |
| GameManager.DefaultGame | Assets/Scripts/GameManager.cs:19 | with the default `roundNum = 4`: 24 cards, 4 Rock, 4 Scissors, no Paper, scores zero |

## Left out

- Unity object lifecycle: `Awake`, `GetComponent`, `Instantiate` and `MonoBehaviour`. A new card is modelled as a copy of the prefab's back sprite, table and initial renderer sprite.
- Card stack positions (`drawPile.position + Vector3.up * i * cardStackOffset`): floating-point layout only.
- `UpdateText` and the TextMeshPro score display: UI output. `NewGame` models `Awake` without it.
- `SoundManager`: audio playback through a global singleton, with no behaviour that can be stated.
- Sprites are modelled as plain values, with `NoSprite` for the null reference.
- `CardProperties.name` is never read. Its null default is modelled as the empty string.
- Round phases, shuffling, dealing, outcome resolution, scoring and reshuffling do not exist in these scripts, so they are not modelled.
- CSharpInt.Div: does not model the `DivideByZeroException` and `OverflowException` that C# raises; they are excluded by the requires. The deck loop never reaches either case, and `KindIndex` proves this when it calls `Div`.
