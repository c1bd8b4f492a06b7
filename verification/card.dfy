/** One playing card: whether it lies face-up, which kind it is, and the
    sprite its renderer shows, which follows from those two fields, the back
    sprite and the table of per-kind properties set on the prefab. */
module Cards {
  import opened CSharpInt

  /** `CardType` is a C# enum over `int`. A cast can give it any `int`, so
      it is not restricted to the three declared members. */
  type CardType = int32

  const Rock: CardType := 0
  const Paper: CardType := 1
  const Scissors: CardType := 2

  /** The kind names one of the enum's declared members. */
  predicate IsDeclared(t: CardType) {
    Rock <= t <= Scissors
  }

  /** A sprite asset, with `NoSprite` standing for the null reference. */
  datatype Sprite = NoSprite | Asset(id: nat)

  /** One row of the card's properties table. */
  datatype Properties = Properties(name: string, kind: CardType, sprite: Sprite)

  /** The zero-initialised record: null name (the empty string here), the
      enum's zero value and a null sprite. */
  const DefaultProperties := Properties("", Rock, NoSprite)

  /** What every card instance copies from the prefab: its back sprite, its
      properties table and the sprite its renderer starts with. */
  datatype Prefab = Prefab(back: Sprite, table: seq<Properties>, initialSprite: Sprite)

  /** The card's state; `shown` is the sprite currently on its renderer. */
  datatype Card = Card(faceUp: bool, kind: CardType, shown: Sprite, back: Sprite, table: seq<Properties>)

  /** Some row of the table has kind `t`. */
  predicate HasMatch(table: seq<Properties>, t: CardType) {
    exists i :: 0 <= i < |table| && table[i].kind == t
  }

  /** Row `i` is the first row of the table with kind `t`. */
  predicate IsFirstMatch(table: seq<Properties>, t: CardType, i: int) {
    && 0 <= i < |table|
    && table[i].kind == t
    && forall j :: 0 <= j < i ==> table[j].kind != t
  }

  /** The properties for kind `t`: the first row of the table whose kind is
      `t`, or the default record when no row has it. */
  function GetProperties(table: seq<Properties>, t: CardType): (p: Properties)
    ensures HasMatch(table, t) ==> exists i :: IsFirstMatch(table, t, i) && p == table[i]
    ensures forall i :: IsFirstMatch(table, t, i) ==> p == table[i]
    ensures !HasMatch(table, t) ==> p == DefaultProperties
  {
    if |table| == 0 then DefaultProperties
    else if table[0].kind == t then
      assert IsFirstMatch(table, t, 0);
      table[0]
    else
      var p := GetProperties(table[1..], t);
      assert HasMatch(table, t) ==> HasMatch(table[1..], t) by {
        if HasMatch(table, t) {
          var i :| 0 <= i < |table| && table[i].kind == t;
          assert table[1..][i - 1].kind == t;
        }
      }
      assert HasMatch(table[1..], t) ==> exists i :: IsFirstMatch(table, t, i) && p == table[i] by {
        if HasMatch(table[1..], t) {
          var i :| IsFirstMatch(table[1..], t, i) && p == table[1..][i];
          assert IsFirstMatch(table, t, i + 1);
        }
      }
      assert forall i :: IsFirstMatch(table, t, i) ==> p == table[i] by {
        forall i | IsFirstMatch(table, t, i)
          ensures p == table[i]
        {
          var k :| IsFirstMatch(table, t, k) && p == table[k];
          FirstMatchUnique(table, t, i, k);
        }
      }
      p
  }

  /** At most one row is the first match. */
  lemma FirstMatchUnique(table: seq<Properties>, t: CardType, i: int, j: int)
    requires IsFirstMatch(table, t, i) && IsFirstMatch(table, t, j)
    ensures i == j
  {
  }

  /** Rows before the first row of kind `t` play no part in the lookup. */
  lemma {:induction false} GetPropertiesSkipsPrefix(front: seq<Properties>, rest: seq<Properties>, t: CardType)
    requires forall i :: 0 <= i < |front| ==> front[i].kind != t
    ensures GetProperties(front + rest, t) == GetProperties(rest, t)
  {
    if |front| > 0 {
      assert (front + rest)[1..] == front[1..] + rest;
      GetPropertiesSkipsPrefix(front[1..], rest, t);
    } else {
      assert front + rest == rest;
    }
  }

  /** Rows after the first row of kind `t` play no part in the lookup. */
  lemma {:induction false} GetPropertiesIgnoresSuffix(front: seq<Properties>, rest: seq<Properties>, t: CardType)
    requires HasMatch(front, t)
    ensures GetProperties(front + rest, t) == GetProperties(front, t)
  {
    if front[0].kind != t {
      assert (front + rest)[1..] == front[1..] + rest;
      var i :| 0 <= i < |front| && front[i].kind == t;
      assert front[1..][i - 1].kind == t;
      GetPropertiesIgnoresSuffix(front[1..], rest, t);
    }
  }

  /** The sprite the renderer should show for the card's current fields:
      the back while face-down, otherwise the sprite of the properties
      looked up for its kind. */
  function Displayed(c: Card): (s: Sprite)
    ensures !c.faceUp ==> s == c.back
    ensures c.faceUp && HasMatch(c.table, c.kind) ==>
      exists i :: IsFirstMatch(c.table, c.kind, i) && s == c.table[i].sprite
    ensures c.faceUp && !HasMatch(c.table, c.kind) ==> s == NoSprite
  {
    if c.faceUp then GetProperties(c.table, c.kind).sprite else c.back
  }

  /** The renderer shows what the card's fields call for. */
  predicate InSync(c: Card) {
    c.shown == Displayed(c)
  }

  /** Refreshes the renderer from the card's fields. */
  function UpdateSprite(c: Card): (d: Card)
    ensures InSync(d)
    ensures d.faceUp == c.faceUp && d.kind == c.kind
    ensures d.back == c.back && d.table == c.table
  {
    c.(shown := Displayed(c))
  }

  /** A freshly created card: face-down, of the enum's zero kind, showing
      whatever sprite the prefab's renderer carries. */
  function NewCard(prefab: Prefab): (c: Card)
    ensures !c.faceUp && c.kind == Rock
    ensures c.back == prefab.back && c.table == prefab.table
    ensures c.shown == prefab.initialSprite
  {
    Card(false, Rock, prefab.initialSprite, prefab.back, prefab.table)
  }

  /** Turns the card to the given side and refreshes the renderer. */
  function Flip(c: Card, up: bool): (d: Card)
    ensures d.faceUp == up
    ensures d.kind == c.kind && d.back == c.back && d.table == c.table
    ensures InSync(d)
  {
    UpdateSprite(c.(faceUp := up))
  }

  /** Sets the card's kind and refreshes the renderer. */
  function UpdateProperties(c: Card, t: CardType): (d: Card)
    ensures d.kind == t
    ensures d.faceUp == c.faceUp && d.back == c.back && d.table == c.table
    ensures InSync(d)
  {
    UpdateSprite(c.(kind := t))
  }

  /** Flipping to the same side twice is the same as flipping once. */
  lemma FlipIdempotent(c: Card, up: bool)
    ensures Flip(Flip(c, up), up) == Flip(c, up)
  {
  }

  /** Setting the same kind twice is the same as setting it once. */
  lemma UpdatePropertiesIdempotent(c: Card, t: CardType)
    ensures UpdateProperties(UpdateProperties(c, t), t) == UpdateProperties(c, t)
  {
  }

  /** The two setters touch different fields, so their order does not matter. */
  lemma FlipCommutesWithUpdateProperties(c: Card, up: bool, t: CardType)
    ensures Flip(UpdateProperties(c, t), up) == UpdateProperties(Flip(c, up), t)
  {
  }

  /** A face-down card shows its back whatever kind it is given. */
  lemma FaceDownShowsBack(c: Card, t: CardType)
    requires !c.faceUp
    ensures UpdateProperties(c, t).shown == c.back
  {
  }

  /** A face-up card whose kind no table row names, such as a kind outside
      the declared enum when every row is declared, shows no sprite. */
  lemma UnlistedKindShowsNothing(c: Card)
    requires InSync(c) && c.faceUp
    requires forall i :: 0 <= i < |c.table| ==> IsDeclared(c.table[i].kind)
    requires !IsDeclared(c.kind)
    ensures c.shown == NoSprite
  {
  }

  /** A call a script makes on a card. */
  datatype Call = FlipTo(up: bool) | SetKind(t: CardType)

  function Apply(c: Card, call: Call): Card {
    match call
    case FlipTo(up) => Flip(c, up)
    case SetKind(t) => UpdateProperties(c, t)
  }

  /** The card after the calls, made in order. */
  function Run(c: Card, calls: seq<Call>): Card {
    if |calls| == 0 then c else Apply(Run(c, calls[..|calls| - 1]), calls[|calls| - 1])
  }

  /** The side named by the last `FlipTo` call, or `dflt` when there is none. */
  function LastSide(calls: seq<Call>, dflt: bool): bool {
    if |calls| == 0 then dflt
    else if calls[|calls| - 1].FlipTo? then calls[|calls| - 1].up
    else LastSide(calls[..|calls| - 1], dflt)
  }

  /** The kind named by the last `SetKind` call, or `dflt` when there is none. */
  function LastKind(calls: seq<Call>, dflt: CardType): CardType {
    if |calls| == 0 then dflt
    else if calls[|calls| - 1].SetKind? then calls[|calls| - 1].t
    else LastKind(calls[..|calls| - 1], dflt)
  }

  /** Whatever calls are made, the side depends only on the last flip, the
      kind only on the last kind set, the prefab data never changes, and
      after at least one call the renderer is in sync. */
  lemma {:induction false} RunFrame(c: Card, calls: seq<Call>)
    ensures Run(c, calls).faceUp == LastSide(calls, c.faceUp)
    ensures Run(c, calls).kind == LastKind(calls, c.kind)
    ensures Run(c, calls).back == c.back && Run(c, calls).table == c.table
    ensures |calls| > 0 || InSync(c) ==> InSync(Run(c, calls))
  {
    if |calls| > 0 {
      RunFrame(c, calls[..|calls| - 1]);
    }
  }
}
