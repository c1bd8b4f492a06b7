/** The game manager's deck construction: on start it discards its card
    list and deals `roundNum * 6` fresh face-down cards, the card at
    position `i` getting kind `i / roundNum * 2`. The scores live beside the
    deck and start at zero. */
module GameManager {
  import opened CSharpInt
  import opened Cards

  /** The inspector default for `roundNum`. */
  const DefaultRoundNum: int32 := 4

  /** The largest `roundNum` for which `roundNum * 6` does not overflow. */
  const MaxRoundNum: int := 357_913_941

  /** The manager's state: the prefab cards are cloned from, the round
      count, the card list and the two scores. */
  datatype Manager = Manager(prefab: Prefab, roundNum: int32, cards: seq<Card>, playerScore: int32, opponentScore: int32)

  /** How many times the start-up loop runs: the `int` product
      `roundNum * 6`, wrapped to 32 bits, when it is positive, else none. */
  function DeckSize(roundNum: int32): (n: nat)
    ensures n <= MaxValue
    ensures 0 < roundNum as int <= MaxRoundNum ==> n == 6 * roundNum as int
    ensures -MaxRoundNum <= roundNum as int <= 0 ==> n == 0
    ensures n > 0 ==> roundNum != 0
  {
    var bound := Wrap(roundNum as int * 6);
    if bound > 0 then bound as nat else 0
  }

  /** A non-empty deck always has the `int` product's size: `6 * roundNum`
      up to a multiple of 2^32, whether or not the product wrapped. */
  lemma DeckSizeCongruent(roundNum: int32)
    ensures DeckSize(roundNum) > 0 ==> (DeckSize(roundNum) - 6 * roundNum as int) % Modulus == 0
  {
    var x := roundNum as int * 6;
    var k := (x - Wrap(x) as int) / Modulus;
    assert DeckSize(roundNum) > 0 ==> DeckSize(roundNum) - 6 * roundNum as int == Modulus * -k;
  }

  /** The product wraps for round counts beyond `MaxRoundNum`: some give an
      empty deck, some a short deck, and some negative counts a non-empty one. */
  lemma DeckSizeWraps()
    ensures DeckSize((MaxRoundNum + 1) as int32) == 0
    ensures DeckSize(715_827_883) == 2
    ensures DeckSize(-715_827_882) == 4
  {
  }

  /** With `roundNum = 715827883` the wrapped product is 2, so a new game
      has just two cards, and both are Rock. */
  lemma WrappedDeckIsTwoRocks(prefab: Prefab)
    ensures |NewGame(prefab, 715_827_883).cards| == 2
    ensures forall j :: 0 <= j < 2 ==> NewGame(prefab, 715_827_883).cards[j].kind == Rock
  {
    DeckSizeWraps();
    DivOfNonNegative(0, 715_827_883);
    DivOfNonNegative(1, 715_827_883);
  }

  /** A negative `roundNum` whose product wraps to a positive bound deals a
      non-empty deck whose kinds run 0, -2, ... in blocks of `|roundNum|`:
      with `roundNum = -357913942` the bound is 2147483644, the first card is
      Rock and card 357913942 has kind -2. */
  lemma NegativeWrappedDeck(prefab: Prefab)
    ensures var g := NewGame(prefab, -357_913_942);
      && |g.cards| == 2_147_483_644
      && g.cards[0].kind == Rock
      && g.cards[357_913_942].kind == -2
      && forall j :: 0 <= j < |g.cards| ==> g.cards[j].kind <= 0
  {
    QuotientByNegative(357_913_942, -357_913_942);
  }

  /** For `0 <= i < m * r`, the quotient `i / r` is below `m`. */
  lemma QuotientBelow(i: int, r: int, m: int)
    requires r > 0 && 0 <= i < m * r
    ensures 0 <= i / r < m
  {
    var q := i / r;
    assert r * q <= i;
    assert r * (q - m) == r * q - m * r;
    MulBelowDivisor(r, q - m + 1);
  }

  /** `i / r` is `b` exactly when `i` lies in the `b`-th block of `r`. */
  lemma DivBlock(i: int, r: int, b: int)
    requires r > 0 && i >= 0
    ensures i / r == b <==> b * r <= i < b * r + r
  {
    var q := i / r;
    assert r * q <= i < r * q + r;
    if b * r <= i < b * r + r {
      assert r * (q - b) == r * q - b * r;
      assert r * (b - q) == b * r - r * q;
      MulBelowDivisor(r, q - b);
      MulBelowDivisor(r, b - q);
    }
  }

  /** The kind given to the card at loop index `i`: the `int` expression
      `i / roundNum * 2`, truncating division first, then an unchecked
      doubling, then a cast to the enum. */
  function KindIndex(roundNum: int32, i: int): (k: CardType)
    requires 0 <= i < DeckSize(roundNum)
    ensures k as int == 2 * (i / roundNum as int)
    ensures k % 2 == 0
    ensures roundNum < 0 ==> k <= 0
    ensures 0 < roundNum as int <= MaxRoundNum ==> 0 <= k <= 10
  {
    KindArithmetic(roundNum, i as int32);
    Wrap(Div(i as int32, roundNum) as int * 2)
  }

  /** The doubled quotient never wraps: it is the mathematical
      `2 * (i / roundNum)`, for every `roundNum` that gives a non-empty deck. */
  lemma KindArithmetic(roundNum: int32, i: int32)
    requires 0 <= i as int < DeckSize(roundNum)
    ensures Wrap(Div(i, roundNum) as int * 2) as int == 2 * (i as int / roundNum as int)
    ensures roundNum < 0 ==> i as int / roundNum as int <= 0
    ensures 0 < roundNum as int <= MaxRoundNum ==> 0 <= i as int / roundNum as int <= 5
  {
    var x, r := i as int, roundNum as int;
    DivOfNonNegative(i, roundNum);
    if Abs(r) > 1 {
      MagnitudeQuotient(x, Abs(r));
      if r < 0 {
        QuotientByNegative(x, r);
      }
    } else if r == 1 {
      assert x / r == x;
    }
    if 0 < r <= MaxRoundNum {
      QuotientBelow(x, r, 6);
    }
  }

  /** The card the loop creates at index `i`: a clone of the prefab, flipped
      face-down, then given its kind. */
  function DeckCard(prefab: Prefab, roundNum: int32, i: int): (c: Card)
    requires 0 <= i < DeckSize(roundNum)
    ensures !c.faceUp && c.kind == KindIndex(roundNum, i)
    ensures c.shown == prefab.back && InSync(c)
    ensures c.back == prefab.back && c.table == prefab.table
  {
    UpdateProperties(Flip(NewCard(prefab), false), KindIndex(roundNum, i))
  }

  /** The start-up loop from the point where `cards` holds the cards of the
      iterations so far: each remaining iteration appends its card. */
  function FillDeck(prefab: Prefab, roundNum: int32, cards: seq<Card>): (deck: seq<Card>)
    requires |cards| <= DeckSize(roundNum)
    requires forall j :: 0 <= j < |cards| ==> cards[j] == DeckCard(prefab, roundNum, j)
    ensures |deck| == DeckSize(roundNum)
    ensures forall j :: 0 <= j < |deck| ==> deck[j] == DeckCard(prefab, roundNum, j)
    decreases DeckSize(roundNum) - |cards|
  {
    if |cards| < DeckSize(roundNum) then
      FillDeck(prefab, roundNum, cards + [DeckCard(prefab, roundNum, |cards|)])
    else
      cards
  }

  /** Clears the card list and runs the start-up loop. Whatever the list
      held before is gone; position `i` holds the face-down card of kind
      `KindIndex(roundNum, i)`; the scores are untouched. */
  function StartGame(g: Manager): (h: Manager)
    ensures |h.cards| == DeckSize(g.roundNum)
    ensures forall j :: 0 <= j < |h.cards| ==> h.cards[j] == DeckCard(g.prefab, g.roundNum, j)
    ensures forall j :: 0 <= j < |h.cards| ==>
      !h.cards[j].faceUp && h.cards[j].kind == KindIndex(g.roundNum, j) && h.cards[j].shown == g.prefab.back
    ensures h.playerScore == g.playerScore && h.opponentScore == g.opponentScore
    ensures h.prefab == g.prefab && h.roundNum == g.roundNum
  {
    g.(cards := FillDeck(g.prefab, g.roundNum, []))
  }

  /** A new manager: empty card list, both scores zero, then `StartGame`. */
  function NewGame(prefab: Prefab, roundNum: int32): (g: Manager)
    ensures g.playerScore == 0 && g.opponentScore == 0
    ensures g.prefab == prefab && g.roundNum == roundNum
    ensures |g.cards| == DeckSize(roundNum)
    ensures forall j :: 0 <= j < |g.cards| ==> !g.cards[j].faceUp && g.cards[j].kind == KindIndex(roundNum, j)
  {
    StartGame(Manager(prefab, roundNum, [], 0, 0))
  }

  /** Restarting builds the same deck whatever the old card list held. */
  lemma StartGameForgetsOldCards(g: Manager, old_cards: seq<Card>)
    ensures StartGame(g.(cards := old_cards)) == StartGame(g)
  {
  }

  /** Every kind the loop assigns is even, for every `roundNum`, so no card
      is ever Paper. */
  lemma NoPaperEver(g: Manager)
    ensures forall j :: 0 <= j < |StartGame(g).cards| ==>
      StartGame(g).cards[j].kind % 2 == 0 && StartGame(g).cards[j].kind != Paper
  {
  }

  /** How many cards in `cards` have kind `t`. */
  function CountKind(cards: seq<Card>, t: int): nat {
    if |cards| == 0 then 0
    else CountKind(cards[..|cards| - 1], t) + (if cards[|cards| - 1].kind as int == t then 1 else 0)
  }

  /** No card has kind `t`, so none is counted. */
  lemma {:induction false} CountAbsent(cards: seq<Card>, t: int)
    requires forall j :: 0 <= j < |cards| ==> cards[j].kind as int != t
    ensures CountKind(cards, t) == 0
  {
    if |cards| > 0 {
      CountAbsent(cards[..|cards| - 1], t);
    }
  }

  /** `x` limited to `0..hi`. */
  function Clamp(x: int, hi: nat): nat {
    if x < 0 then 0 else if x > hi then hi else x
  }

  /** In a sequence laid out in blocks of `r` cards of kinds 0, 2, 4, ...,
      the first `n` cards hold as many of kind `2 * b` as the part of block
      `b` they reach. */
  lemma {:induction false} BlockCount(s: seq<Card>, r: int, b: nat, n: nat)
    requires r > 0 && n <= |s|
    requires forall i :: 0 <= i < |s| ==> s[i].kind as int == 2 * (i / r)
    ensures CountKind(s[..n], 2 * b) == Clamp(n - b * r, r)
  {
    if n > 0 {
      BlockCount(s, r, b, n - 1);
      assert s[..n][..n - 1] == s[..n - 1];
      DivBlock(n - 1, r, b);
    } else {
      assert b * r >= 0;
    }
  }

  /** Card `i` of the deck has kind `2 * (i / roundNum)`, in blocks of
      `roundNum`: Rock first, then Scissors, then the undeclared kinds 4, 6,
      8 and 10; the kinds never decrease along the list. */
  lemma DeckLayout(g: Manager)
    requires 0 < g.roundNum as int <= MaxRoundNum
    ensures var d, r := StartGame(g).cards, g.roundNum as int;
      && |d| == 6 * r
      && (forall i :: 0 <= i < |d| ==> (d[i].kind == Rock <==> i < r))
      && (forall i :: 0 <= i < |d| ==> (d[i].kind == Scissors <==> r <= i < 2 * r))
      && (forall i :: 0 <= i < |d| ==> (IsDeclared(d[i].kind) <==> i < 2 * r))
      && (forall i :: 0 <= i < |d| && !IsDeclared(d[i].kind) ==> d[i].kind in {4, 6, 8, 10})
      && (forall i, j :: 0 <= i <= j < |d| ==> d[i].kind <= d[j].kind)
  {
    var d, r := StartGame(g).cards, g.roundNum as int;
    forall i | 0 <= i < |d|
      ensures d[i].kind == Rock <==> i < r
      ensures d[i].kind == Scissors <==> r <= i < 2 * r
      ensures IsDeclared(d[i].kind) <==> i < 2 * r
      ensures !IsDeclared(d[i].kind) ==> d[i].kind in {4, 6, 8, 10}
    {
      BlockOfIndex(i, r, d[i].kind as int);
    }
    forall i, j | 0 <= i <= j < |d|
      ensures d[i].kind <= d[j].kind
    {
      QuotientMonotone(i, j, r);
    }
  }

  /** Where index `i` falls among the blocks of `r` decides whether kind
      `2 * (i / r)` is Rock, Scissors or beyond the declared members. */
  lemma BlockOfIndex(i: int, r: int, k: int)
    requires r > 0 && 0 <= i < 6 * r && k == 2 * (i / r)
    ensures k == 0 <==> i < r
    ensures k == 2 <==> r <= i < 2 * r
    ensures 0 <= k <= 2 <==> i < 2 * r
    ensures k > 2 ==> k in {4, 6, 8, 10}
  {
    DivBlock(i, r, 0);
    DivBlock(i, r, 1);
    QuotientBelow(i, r, 6);
  }

  lemma QuotientMonotone(i: int, j: int, r: int)
    requires r > 0 && 0 <= i <= j
    ensures i / r <= j / r
  {
    assert r * (i / r) <= i && j < r * (j / r) + r;
    assert r * (i / r - j / r) == r * (i / r) - r * (j / r);
    MulBelowDivisor(r, i / r - j / r);
  }

  /** With `roundNum` cards per block: `roundNum` Rock, `roundNum` Scissors,
      no Paper, and the other `4 * roundNum` cards of undeclared kinds. */
  lemma DeckComposition(g: Manager)
    requires 0 < g.roundNum as int <= MaxRoundNum
    ensures var d, r := StartGame(g).cards, g.roundNum as int;
      && CountKind(d, Rock as int) == r
      && CountKind(d, Paper as int) == 0
      && CountKind(d, Scissors as int) == r
      && CountKind(d, 4) + CountKind(d, 6) + CountKind(d, 8) + CountKind(d, 10) == 4 * r
  {
    var d, r := StartGame(g).cards, g.roundNum as int;
    assert forall i :: 0 <= i < |d| ==> d[i].kind as int == 2 * (i / r);
    assert d[..|d|] == d;
    BlockCount(d, r, 0, |d|);
    BlockCount(d, r, 1, |d|);
    BlockCount(d, r, 2, |d|);
    BlockCount(d, r, 3, |d|);
    BlockCount(d, r, 4, |d|);
    BlockCount(d, r, 5, |d|);
    CountAbsent(d, Paper as int);
  }

  /** A deck card past the first two blocks, turned face-up, shows no
      sprite when the prefab's table lists only declared kinds, because its
      lookup falls back to the default record. */
  lemma FaceUpUndeclaredCardShowsNothing(g: Manager, i: int)
    requires 0 < g.roundNum as int <= MaxRoundNum
    requires 2 * g.roundNum as int <= i < 6 * g.roundNum as int
    requires forall j :: 0 <= j < |g.prefab.table| ==> IsDeclared(g.prefab.table[j].kind)
    ensures Flip(StartGame(g).cards[i], true).shown == NoSprite
  {
    DeckLayout(g);
    UnlistedKindShowsNothing(Flip(StartGame(g).cards[i], true));
  }

  /** With the inspector default of four rounds a new game has 24 cards:
      four Rock, four Scissors, no Paper and sixteen of undeclared kinds. */
  lemma DefaultGame(prefab: Prefab)
    ensures var g := NewGame(prefab, DefaultRoundNum);
      && |g.cards| == 24
      && CountKind(g.cards, Rock as int) == 4
      && CountKind(g.cards, Paper as int) == 0
      && CountKind(g.cards, Scissors as int) == 4
      && g.playerScore == 0 && g.opponentScore == 0
  {
    DeckComposition(Manager(prefab, DefaultRoundNum, [], 0, 0));
  }
}
