/** One square of the minesweeper board: what lies under it (its type) and
    what the player sees of it (its status). */
module Cells {

  /** Types 0..8 are the number of bombs among the eight neighbours. */
  const CELL_MINE_0 := 0
  const CELL_MINE_1 := 1
  const CELL_MINE_8 := 8
  /** The type of a cell that holds a bomb. */
  const CELL_BOMB := 10

  /** The types a cell can have once the board is built. */
  predicate ValidKind(kind: int) {
    CELL_MINE_0 <= kind <= CELL_MINE_8 || kind == CELL_BOMB
  }

  /** A type that shows a bomb is near: a count from 1 to 8, or a bomb itself. */
  predicate KindIsBombNearby(kind: int) {
    (CELL_MINE_1 <= kind <= CELL_MINE_8) || kind == CELL_BOMB
  }

  /** The five visible states; a flag and a question mark sit on a cell that
      is still closed. */
  datatype Status = Unopened | Question | Flag | Opened | Exploded

  datatype Cell = Cell(kind: int, status: Status) {

    predicate IsBombNearby() {
      KindIsBombNearby(kind)
    }

    predicate IsBomb() {
      kind == CELL_BOMB
    }

    predicate IsOpen() {
      status == Opened || status == Exploded
    }

    /** Flagged and questioned cells count as unopened. */
    predicate IsUnopened() {
      !IsOpen()
    }

    /** Opening acts only on an unopened cell: a bomb opened during play
        explodes, anything else is simply opened. */
    function Open(inPlay: bool): (c: Cell)
      ensures c.kind == kind && c.IsOpen()
      ensures IsOpen() ==> c == this
      ensures c.status == Exploded <==> status == Exploded || (IsUnopened() && inPlay && IsBomb())
    {
      if IsUnopened() then
        if inPlay && IsBomb() then this.(status := Exploded) else this.(status := Opened)
      else
        this
    }

    function SetStatus(s: Status): (c: Cell)
      ensures c.kind == kind && c.status == s
    {
      this.(status := s)
    }

    /** The one-letter code of the type: the digit of the count, 'B' for a bomb. */
    function TypeCharactor(): (ch: char)
      requires ValidKind(kind)
      ensures ch == 'B' <==> IsBomb()
      ensures !IsBomb() ==> ch as int - '0' as int == kind
    {
      if kind == CELL_BOMB then 'B' else ('0' as int + kind) as char
    }

    /** The one-letter code of the status. */
    function StatusCharactor(): (ch: char)
      ensures ch in "UQFOX"
      ensures (ch == 'U' <==> status == Unopened) && (ch == 'Q' <==> status == Question)
      ensures (ch == 'F' <==> status == Flag) && (ch == 'O' <==> status == Opened)
      ensures ch == 'X' <==> status == Exploded
    {
      match status
      case Unopened => 'U'
      case Question => 'Q'
      case Flag => 'F'
      case Opened => 'O'
      case Exploded => 'X'
    }

    /** The two-letter code of the cell: type then status. */
    function Charactor(): (s: string)
      requires ValidKind(kind)
      ensures |s| == 2 && s[0] == TypeCharactor() && s[1] == StatusCharactor()
    {
      [TypeCharactor(), StatusCharactor()]
    }
  }

  /** Reading a type code back; None for a letter no type produces. */
  function KindOfCharactor(ch: char): (k: Option<int>)
    ensures k.Some? ==> ValidKind(k.value)
  {
    if ch == 'B' then Some(CELL_BOMB)
    else if '0' <= ch <= '8' then Some(ch as int - '0' as int)
    else None
  }

  /** Reading a status code back; None for a letter no status produces. */
  function StatusOfCharactor(ch: char): Option<Status> {
    match ch
    case 'U' => Some(Unopened)
    case 'Q' => Some(Question)
    case 'F' => Some(Flag)
    case 'O' => Some(Opened)
    case 'X' => Some(Exploded)
    case _ => None
  }

  /** Reading a two-letter cell code back. */
  function ParseCharactor(s: string): Option<Cell> {
    if |s| != 2 then None
    else match (KindOfCharactor(s[0]), StatusOfCharactor(s[1]))
      case (Some(k), Some(st)) => Some(Cell(k, st))
      case _ => None
  }

  datatype Option<T> = None | Some(value: T)

  /** The cell codes lose nothing: every cell of a built board reads back as itself. */
  lemma CharactorRoundTrip(c: Cell)
    requires ValidKind(c.kind)
    ensures ParseCharactor(c.Charactor()) == Some(c)
  {
    var s := c.Charactor();
    if c.IsBomb() {
      assert KindOfCharactor(s[0]) == Some(c.kind);
    } else {
      assert '0' <= s[0] <= '8';
      assert KindOfCharactor(s[0]) == Some(c.kind);
    }
    match c.status
    case Unopened =>
    case Question =>
    case Flag =>
    case Opened =>
    case Exploded =>
  }

  /** Opening twice is opening once, whatever the second call's mode. */
  lemma OpenIdempotent(c: Cell, inPlay: bool, again: bool)
    ensures c.Open(inPlay).Open(again) == c.Open(inPlay)
  {
  }

  /** A flagged or questioned cell is opened like an unopened one; an open or
      exploded cell is left alone. */
  lemma OpenOutcome(c: Cell, inPlay: bool)
    ensures c.status in {Unopened, Question, Flag} ==>
      c.Open(inPlay).status == (if inPlay && c.IsBomb() then Exploded else Opened)
    ensures c.status in {Opened, Exploded} ==> c.Open(inPlay) == c
  {
  }

  /** A cell that has no bomb nearby is exactly a zero cell, among valid types. */
  lemma NotNearbyIsZero(c: Cell)
    requires ValidKind(c.kind)
    ensures !c.IsBombNearby() <==> c.kind == CELL_MINE_0
  {
  }
}
