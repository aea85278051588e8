/** The game-state rules and the flag cycle, as functions of the board's cells. */
module Rules {
  import opened Cells
  import opened Grid

  datatype GameState = InPlay | Over | Completed

  /** Some cell has exploded. */
  ghost predicate AnyExploded(cells: map<Pos, Cell>) {
    exists q :: q in cells && cells[q].status == Exploded
  }

  /** Every cell is either a flagged bomb or open. */
  ghost predicate AllCleared(cells: map<Pos, Cell>) {
    forall q :: q in cells ==> (cells[q].IsBomb() && cells[q].status == Flag) || cells[q].IsOpen()
  }

  /** The state after a check: OVER on an explosion, else COMPLETED when
      everything is cleared, else whatever it was (the check never sets INPLAY). */
  ghost function NextGameState(cells: map<Pos, Cell>, state: GameState): GameState {
    if AnyExploded(cells) then Over
    else if AllCleared(cells) then Completed
    else state
  }

  /** A finished game never comes back into play, and a lost game stays lost
      as long as the exploded cell is still there. */
  lemma NextGameStateMonotone(cells: map<Pos, Cell>, state: GameState)
    ensures state != InPlay ==> NextGameState(cells, state) != InPlay
    ensures (state == Over ==> AnyExploded(cells)) ==> (NextGameState(cells, state) == Over <==> AnyExploded(cells))
  {
  }

  /** The right-click cycle: unopened, flag, question, unopened; open and
      exploded cells do not move. */
  function CycleFlag(s: Status): (t: Status)
    ensures s == Opened || s == Exploded <==> t == s
  {
    match s
    case Unopened => Flag
    case Flag => Question
    case Question => Unopened
    case Opened => Opened
    case Exploded => Exploded
  }

  /** Three right clicks give back the original status. */
  lemma CycleFlagThrice(s: Status)
    ensures CycleFlag(CycleFlag(CycleFlag(s))) == s
  {
  }

  /** The cells after a right click on p. */
  function RightClickResult(cells: map<Pos, Cell>, width: int, height: int, p: Pos): map<Pos, Cell> {
    if InBounds(p, width, height) && p in cells then cells[p := cells[p].SetStatus(CycleFlag(cells[p].status))]
    else cells
  }

  ghost function FlagPositions(cells: map<Pos, Cell>): set<Pos> {
    set q | q in cells && cells[q].status == Flag
  }

  /** A right click moves the number of flags by one exactly when it plants
      or lifts a flag. */
  lemma RightClickFlagCount(cells: map<Pos, Cell>, width: int, height: int, p: Pos)
    ensures var after := RightClickResult(cells, width, height, p);
      |FlagPositions(after)| ==
        if !InBounds(p, width, height) || p !in cells then |FlagPositions(cells)|
        else if cells[p].status == Unopened then |FlagPositions(cells)| + 1
        else if cells[p].status == Flag then |FlagPositions(cells)| - 1
        else |FlagPositions(cells)|
  {
    var after := RightClickResult(cells, width, height, p);
    if InBounds(p, width, height) && p in cells {
      var before := FlagPositions(cells);
      if cells[p].status == Unopened {
        assert FlagPositions(after) == before + {p};
      } else if cells[p].status == Flag {
        assert FlagPositions(after) == before - {p};
      } else {
        assert FlagPositions(after) == before;
      }
    }
  }

  /** A right click never changes an exploded cell, nor any cell but the clicked one. */
  lemma RightClickFrame(cells: map<Pos, Cell>, width: int, height: int, p: Pos)
    ensures var after := RightClickResult(cells, width, height, p);
      && after.Keys == cells.Keys
      && (forall q :: q in cells && (q != p || cells[q].IsOpen()) ==> after[q] == cells[q])
      && (forall q :: q in cells ==> after[q].kind == cells[q].kind)
  {
  }

  /** Every cell opened, as the end-of-game reveal does. */
  function OpenAll(cells: map<Pos, Cell>, inPlay: bool): map<Pos, Cell> {
    map q | q in cells :: cells[q].Open(inPlay)
  }

  /** After opening everything the board counts as cleared, an exploded cell
      stays exploded, and an opening that is not in play explodes nothing new. */
  lemma OpenAllOutcome(cells: map<Pos, Cell>, inPlay: bool)
    ensures AllCleared(OpenAll(cells, inPlay))
    ensures AnyExploded(cells) ==> AnyExploded(OpenAll(cells, inPlay))
    ensures !inPlay ==> (AnyExploded(OpenAll(cells, inPlay)) <==> AnyExploded(cells))
  {
    var after := OpenAll(cells, inPlay);
    if !inPlay && AnyExploded(after) {
      var q :| q in after && after[q].status == Exploded;
      assert cells[q].status == Exploded;
    }
    if AnyExploded(cells) {
      var q :| q in cells && cells[q].status == Exploded;
      assert after[q].status == Exploded;
    }
  }
}
