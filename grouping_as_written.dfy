/** The zero-cell grouping as pyminesweeper.py writes it. The fill pops each
    cell into the very variables the scan uses for its column and row; the
    column is re-read from the scan's range at the next step, but the row is
    not, so after a group is filled the rest of that row is read on the row
    of the last popped cell. A zero cell further along the row can then be
    missed for good. The board uses Grouping.GroupZeroCells, which keeps the
    scan's row. */
module GroupingAsWritten {
  import opened Cells
  import opened Grid
  import opened Cascade
  import opened Clusters
  import opened Grouping

  /** The cells without a group label. */
  ghost function Unlabelled(groups: map<Pos, int>): set<Pos> {
    set q | q in groups && groups[q] == NO_GROUP
  }

  lemma SubsetSize(a: set<Pos>, b: set<Pos>)
    requires a <= b
    ensures |a| <= |b| && (|a| == |b| ==> a == b)
  {
    if a != b {
      ProperSubsetSmaller(a, b);
    }
  }

  /** The side neighbours of the popped cell p from offset k on: each zero
      one without a label is labelled g, listed and pushed. */
  function PushSides(kinds: map<Pos, int>, width: int, height: int, groups: map<Pos, int>, g: int,
                     positions: seq<Pos>, queue: seq<Pos>, p: Pos, k: nat): (map<Pos, int>, seq<Pos>, seq<Pos>)
    requires k <= 4
    decreases 4 - k
  {
    if k == 4 then (groups, positions, queue)
    else
      var n := Add(p, SideVectors()[k]);
      if InBounds(n, width, height) && n in kinds && n in groups && kinds[n] == CELL_MINE_0 && groups[n] == NO_GROUP then
        PushSides(kinds, width, height, groups[n := g], g, positions + [n], queue + [n], p, k + 1)
      else
        PushSides(kinds, width, height, groups, g, positions, queue, p, k + 1)
  }

  /** Pushing labels cells that had none, with a real label: the unlabelled
      cells only shrink, and they shrink whenever something was pushed. */
  lemma {:induction false} PushSidesLabels(kinds: map<Pos, int>, width: int, height: int, groups: map<Pos, int>, g: int,
                                           positions: seq<Pos>, queue: seq<Pos>, p: Pos, k: nat)
    requires g != NO_GROUP && k <= 4
    ensures var r := PushSides(kinds, width, height, groups, g, positions, queue, p, k);
      && r.0.Keys == groups.Keys
      && Unlabelled(r.0) <= Unlabelled(groups)
      && (Unlabelled(r.0) == Unlabelled(groups) ==> r.2 == queue)
    decreases 4 - k
  {
    if k < 4 {
      var n := Add(p, SideVectors()[k]);
      if InBounds(n, width, height) && n in kinds && n in groups && kinds[n] == CELL_MINE_0 && groups[n] == NO_GROUP {
        assert n in Unlabelled(groups) - Unlabelled(groups[n := g]);
        PushSidesLabels(kinds, width, height, groups[n := g], g, positions + [n], queue + [n], p, k + 1);
      } else {
        PushSidesLabels(kinds, width, height, groups, g, positions, queue, p, k + 1);
      }
    }
  }

  /** The fill of group g, popping from the end of the work-list; it also
      gives back the last popped cell, which the scan goes on with. */
  function FillAsWritten(kinds: map<Pos, int>, width: int, height: int, groups: map<Pos, int>, g: int,
                         positions: seq<Pos>, queue: seq<Pos>, last: Pos): (r: (map<Pos, int>, seq<Pos>, Pos))
    requires g != NO_GROUP
    ensures r.0.Keys == groups.Keys
    decreases |Unlabelled(groups)|, |queue|
  {
    if |queue| == 0 then (groups, positions, last)
    else
      var p := queue[|queue| - 1];
      var pushed := PushSides(kinds, width, height, groups, g, positions, queue[..|queue| - 1], p, 0);
      PushSidesLabels(kinds, width, height, groups, g, positions, queue[..|queue| - 1], p, 0);
      SubsetSize(Unlabelled(pushed.0), Unlabelled(groups));
      FillAsWritten(kinds, width, height, pushed.0, g, pushed.1, pushed.2, p)
  }

  /** The scan at column col of scan row `row`, with the row variable
      standing at r: r starts each scan row equal to it, and after a group is
      filled it holds the row of that group's last popped cell. */
  function ScanAsWritten(kinds: map<Pos, int>, width: nat, height: nat, row: nat, col: nat, r: int,
                         groups: map<Pos, int>, lists: seq<seq<Pos>>): seq<seq<Pos>>
    decreases height - row, width - col
  {
    if row >= height then lists
    else if col >= width then ScanAsWritten(kinds, width, height, row + 1, 0, row + 1, groups, lists)
    else
      var p := (col, r);
      if p in kinds && p in groups && kinds[p] == CELL_MINE_0 && groups[p] == NO_GROUP then
        var g := |lists| + 1;
        var filled := FillAsWritten(kinds, width, height, groups[p := g], g, [p], [p], p);
        ScanAsWritten(kinds, width, height, row, col + 1, filled.2.1, filled.0, lists + [filled.1])
      else
        ScanAsWritten(kinds, width, height, row, col + 1, r, groups, lists)
  }

  /** The groups as the source computes them, before sorting. */
  function GroupsAsWritten(kinds: map<Pos, int>, width: nat, height: nat): seq<seq<Pos>> {
    ScanAsWritten(kinds, width, height, 0, 0, 0, map q | q in kinds && InBounds(q, width, height) :: NO_GROUP, [])
  }

  function Touches(p: Pos, b: Pos): nat {
    if Adjacent8(p, b) then 1 else 0
  }

  /** The positions of a 5 by 3 board. */
  function Positions5x3(): set<Pos> {
    {(0, 0), (1, 0), (2, 0), (3, 0), (4, 0),
     (0, 1), (1, 1), (2, 1), (3, 1), (4, 1),
     (0, 2), (1, 2), (2, 2), (3, 2), (4, 2)}
  }

  /** The type of the cell at q on a board with bombs at (2, 1) and (4, 2):
      a bomb, or the number of those it touches. */
  function ExampleKind(q: Pos): int {
    if q == (2, 1) || q == (4, 2) then CELL_BOMB
    else Touches(q, (2, 1)) + Touches(q, (4, 2))
  }

  /** The cell types of the 5 by 3 board with bombs at (2, 1) and (4, 2).
      Its zero cells are the first column and (4, 0). */
  function Example(): map<Pos, int> {
    map q | q in Positions5x3() :: ExampleKind(q)
  }

  /** The bombs of the example alone. */
  function ExampleBombs(): map<Pos, int> {
    map[(2, 1) := CELL_BOMB, (4, 2) := CELL_BOMB]
  }

  lemma ExampleBombsAre()
    ensures forall q :: InBounds(q, 5, 3) ==> (IsBombAt(Example(), q) <==> IsBombAt(ExampleBombs(), q))
  {
  }

  /** Around two bombs, a cell counts the bombs it touches. */
  lemma TwoBombsCount(p: Pos)
    ensures BombCount(ExampleBombs(), 5, 3, p) == Touches(p, (2, 1)) + Touches(p, (4, 2))
  {
    var bombs := ExampleBombs();
    BombCountIsAdjacentBombs(bombs, 5, 3, p);
    var s := AdjacentBombs(bombs, 5, 3, p);
    var a, b := Adjacent8(p, (2, 1)), Adjacent8(p, (4, 2));
    if a && b {
      assert s == {(2, 1), (4, 2)};
    } else if a {
      assert s == {(2, 1)};
    } else if b {
      assert s == {(4, 2)};
    } else {
      assert s == {};
    }
  }

  /** The example is a board the game can build: every in-bounds cell has a
      type, and every cell that is not a bomb holds its count. */
  lemma ExampleIsCounted()
    ensures forall q :: q in Example() <==> InBounds(q, 5, 3)
    ensures Counted(Example(), 5, 3)
  {
    forall q | q in Example() && Example()[q] != CELL_BOMB
      ensures Example()[q] == BombCount(Example(), 5, 3, q)
    {
      ExampleBombsAre();
      SameBombsSameCount(Example(), ExampleBombs(), 5, 3, q, 8);
      TwoBombsCount(q);
    }
  }

  /** What the trace below reads of a 5 by 3 board: the first column and
      (4, 0) are zero cells, and (1, 0) and every cell of rows 1 and 2 off the
      first column are not. The example has this shape. */
  ghost predicate ExampleShape(kinds: map<Pos, int>) {
    && (forall q :: q in kinds <==> InBounds(q, 5, 3))
    && kinds[(0, 0)] == 0 && kinds[(0, 1)] == 0 && kinds[(0, 2)] == 0 && kinds[(4, 0)] == 0
    && kinds[(1, 0)] != 0
    && kinds[(1, 1)] != 0 && kinds[(2, 1)] != 0 && kinds[(3, 1)] != 0 && kinds[(4, 1)] != 0
    && kinds[(1, 2)] != 0 && kinds[(2, 2)] != 0 && kinds[(3, 2)] != 0 && kinds[(4, 2)] != 0
  }

  lemma ExampleKeys()
    ensures forall q :: q in Example() <==> InBounds(q, 5, 3)
  {
  }

  lemma ExampleHasShape()
    ensures ExampleShape(Example())
  {
    ExampleKeys();
    var e := Example();
    assert e[(0, 0)] == 0 && e[(0, 1)] == 0 && e[(0, 2)] == 0 && e[(4, 0)] == 0 && e[(1, 0)] != 0;
    assert e[(1, 1)] != 0 && e[(2, 1)] != 0 && e[(3, 1)] != 0 && e[(4, 1)] != 0;
    assert e[(1, 2)] != 0 && e[(2, 2)] != 0 && e[(3, 2)] != 0 && e[(4, 2)] != 0;
  }

  /** No cell has a label yet. */
  function NoLabels(kinds: map<Pos, int>): map<Pos, int> {
    map q | q in kinds && InBounds(q, 5, 3) :: NO_GROUP
  }

  /** The fill from (0, 0): the first column, with (0, 2) popped last. */
  lemma FirstFill(kinds: map<Pos, int>)
    requires ExampleShape(kinds)
    ensures var g := NoLabels(kinds)[(0, 0) := 1][(0, 1) := 1][(0, 2) := 1];
      FillAsWritten(kinds, 5, 3, NoLabels(kinds)[(0, 0) := 1], 1, [(0, 0)], [(0, 0)], (0, 0))
        == (g, [(0, 0), (0, 1), (0, 2)], (0, 2))
  {
    var e := kinds;
    var g1 := NoLabels(kinds)[(0, 0) := 1];
    var g2 := g1[(0, 1) := 1];
    var g3 := g2[(0, 2) := 1];
    assert (0, 1) in kinds && (0, 2) in kinds;
    assert g1[(0, 1)] == NO_GROUP && g2[(0, 2)] == NO_GROUP;
    assert Add((0, 0), SideVectors()[2]) == (0, 1) && Add((0, 1), SideVectors()[2]) == (0, 2);
    assert [(0, 0)] + [(0, 1)] == [(0, 0), (0, 1)] && [(0, 0), (0, 1)] + [(0, 2)] == [(0, 0), (0, 1), (0, 2)];
    assert [] + [(0, 1)] == [(0, 1)] && [] + [(0, 2)] == [(0, 2)];
    // popping (0, 0): only (0, 1) below it is pushed
    assert PushSides(e, 5, 3, g1, 1, [(0, 0)], [], (0, 0), 2) == PushSides(e, 5, 3, g2, 1, [(0, 0), (0, 1)], [(0, 1)], (0, 0), 3);
    assert PushSides(e, 5, 3, g1, 1, [(0, 0)], [], (0, 0), 0) == PushSides(e, 5, 3, g2, 1, [(0, 0), (0, 1)], [(0, 1)], (0, 0), 4);
    // popping (0, 1): only (0, 2) below it is pushed
    assert PushSides(e, 5, 3, g2, 1, [(0, 0), (0, 1)], [], (0, 1), 2) == PushSides(e, 5, 3, g3, 1, [(0, 0), (0, 1), (0, 2)], [(0, 2)], (0, 1), 3);
    assert PushSides(e, 5, 3, g2, 1, [(0, 0), (0, 1)], [], (0, 1), 0) == PushSides(e, 5, 3, g3, 1, [(0, 0), (0, 1), (0, 2)], [(0, 2)], (0, 1), 4);
    // popping (0, 2): nothing is pushed
    assert PushSides(e, 5, 3, g3, 1, [(0, 0), (0, 1), (0, 2)], [], (0, 2), 2) == PushSides(e, 5, 3, g3, 1, [(0, 0), (0, 1), (0, 2)], [], (0, 2), 4);
    assert PushSides(e, 5, 3, g3, 1, [(0, 0), (0, 1), (0, 2)], [], (0, 2), 0) == PushSides(e, 5, 3, g3, 1, [(0, 0), (0, 1), (0, 2)], [], (0, 2), 4);
    assert [(0, 0)][..0] == [] && [(0, 1)][..0] == [] && [(0, 2)][..0] == [];
    assert FillAsWritten(e, 5, 3, g1, 1, [(0, 0)], [(0, 0)], (0, 0)) == FillAsWritten(e, 5, 3, g2, 1, [(0, 0), (0, 1)], [(0, 1)], (0, 0));
    assert FillAsWritten(e, 5, 3, g2, 1, [(0, 0), (0, 1)], [(0, 1)], (0, 0)) == FillAsWritten(e, 5, 3, g3, 1, [(0, 0), (0, 1), (0, 2)], [(0, 2)], (0, 1));
    assert FillAsWritten(e, 5, 3, g3, 1, [(0, 0), (0, 1), (0, 2)], [(0, 2)], (0, 1)) == FillAsWritten(e, 5, 3, g3, 1, [(0, 0), (0, 1), (0, 2)], [], (0, 2));
  }

  /** On a board of that shape the grouping as written finds the first
      column and never the zero cell (4, 0): filling the first column ends on
      row 2, so the rest of row 0 is read on row 2. */
  lemma ShapeMissesZeroCell(kinds: map<Pos, int>)
    requires ExampleShape(kinds)
    ensures GroupsAsWritten(kinds, 5, 3) == [[(0, 0), (0, 1), (0, 2)]]
    ensures IsZero(kinds, 5, 3, (4, 0))
    ensures !CoversZeros(kinds, 5, 3, GroupsAsWritten(kinds, 5, 3))
  {
    var g := NoLabels(kinds)[(0, 0) := 1][(0, 1) := 1][(0, 2) := 1];
    var first := [(0, 0), (0, 1), (0, 2)];
    FirstFill(kinds);
    assert GroupsAsWritten(kinds, 5, 3) == ScanAsWritten(kinds, 5, 3, 0, 0, 0, NoLabels(kinds), []);
    assert ScanAsWritten(kinds, 5, 3, 0, 0, 0, NoLabels(kinds), []) == ScanAsWritten(kinds, 5, 3, 0, 1, 2, g, [first]);
    // the rest of row 0, read on row 2
    assert ScanAsWritten(kinds, 5, 3, 0, 1, 2, g, [first]) == ScanAsWritten(kinds, 5, 3, 0, 3, 2, g, [first]);
    assert ScanAsWritten(kinds, 5, 3, 0, 3, 2, g, [first]) == ScanAsWritten(kinds, 5, 3, 0, 5, 2, g, [first]);
    assert ScanAsWritten(kinds, 5, 3, 0, 5, 2, g, [first]) == ScanAsWritten(kinds, 5, 3, 1, 1, 1, g, [first]);
    assert ScanAsWritten(kinds, 5, 3, 1, 1, 1, g, [first]) == ScanAsWritten(kinds, 5, 3, 1, 3, 1, g, [first]);
    assert ScanAsWritten(kinds, 5, 3, 1, 3, 1, g, [first]) == ScanAsWritten(kinds, 5, 3, 1, 5, 1, g, [first]);
    assert ScanAsWritten(kinds, 5, 3, 1, 5, 1, g, [first]) == ScanAsWritten(kinds, 5, 3, 2, 1, 2, g, [first]);
    assert ScanAsWritten(kinds, 5, 3, 2, 1, 2, g, [first]) == ScanAsWritten(kinds, 5, 3, 2, 3, 2, g, [first]);
    assert ScanAsWritten(kinds, 5, 3, 2, 3, 2, g, [first]) == ScanAsWritten(kinds, 5, 3, 2, 5, 2, g, [first]);
    var gs: seq<seq<Pos>> := [first];
    assert (4, 0) in kinds && (4, 0) !in first;
    assert IsZero(kinds, 5, 3, (4, 0)) && !exists i :: 0 <= i < |gs| && (4, 0) in gs[i];
  }

  /** On the 5 by 3 board with bombs at (2, 1) and (4, 2), which the game can
      build, the grouping as written returns the first column only, and so
      misses the zero cell (4, 0): the clusters do not cover the zeros. */
  lemma AsWrittenMissesZeroCell()
    ensures GroupsAsWritten(Example(), 5, 3) == [[(0, 0), (0, 1), (0, 2)]]
    ensures IsZero(Example(), 5, 3, (4, 0))
    ensures !CoversZeros(Example(), 5, 3, GroupsAsWritten(Example(), 5, 3))
  {
    ExampleHasShape();
    ShapeMissesZeroCell(Example());
  }
}
