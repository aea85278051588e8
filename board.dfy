/** The minesweeper board: the grid of cells, its construction, the reveal
    cascade, the safe-cluster index, the player's clicks and the game state. */
module Board {
  import opened Cells
  import opened Grid
  import opened Cascade
  import opened Clusters
  import opened Rules
  import opened Flood
  import opened Grouping
  import opened Text

  /** The distinct positions among the draws. */
  ghost function DrawnSet(draws: seq<Pos>): set<Pos> {
    set d | d in draws
  }

  lemma DrawnSetWhole(draws: seq<Pos>)
    ensures DrawnSet(draws[..|draws|]) == DrawnSet(draws)
  {
    assert draws[..|draws|] == draws;
  }

  ghost function BombSet(kinds: map<Pos, int>): set<Pos> {
    set q | q in kinds && kinds[q] == CELL_BOMB
  }

  ghost function KindsOf(cells: map<Pos, Cell>): (kinds: map<Pos, int>)
    ensures forall q :: q in kinds <==> q in cells
    ensures forall q :: q in cells ==> kinds[q] == cells[q].kind
  {
    map q | q in cells :: cells[q].kind
  }

  /** The cell c at q once its type is set to start's count; a bomb stays. */
  function CountedCell(c: Cell, start: map<Pos, int>, width: int, height: int, q: Pos): Cell {
    if c.kind == CELL_BOMB then c else c.(kind := BombCount(start, width, height, q))
  }

  /** The types after the count: the bombs of `start`, and start's counts
      elsewhere. They are counted, valid, and have the same bombs. */
  lemma UpdatedCounts(now: map<Pos, int>, start: map<Pos, int>, width: int, height: int)
    requires forall q :: q in now <==> q in start
    requires forall q :: q in now ==> now[q] == if start[q] == CELL_BOMB then CELL_BOMB else BombCount(start, width, height, q)
    ensures Counted(now, width, height)
    ensures forall q :: q in now ==> ValidKind(now[q])
    ensures BombSet(now) == BombSet(start)
  {
    forall q | q in now
      ensures (now[q] == CELL_BOMB <==> start[q] == CELL_BOMB) && ValidKind(now[q])
    {
      BombCountIsAdjacentBombs(start, width, height, q);
    }
    forall q | q in now && now[q] != CELL_BOMB
      ensures now[q] == BombCount(now, width, height, q)
    {
      SameBombsSameCount(now, start, width, height, q, 8);
    }
  }

  /** The flagged cells read so far in row-major order. */
  ghost function FlagsBefore(cells: map<Pos, Cell>, col: int, row: int): set<Pos> {
    set q | q in cells && Before(q, col, row) && cells[q].status == Flag
  }

  /** The index of the first cluster not yet force-opened, or -1 when every
      one has been. */
  function FirstUnrevealed(cs: seq<Cluster>): (i: int)
    ensures -1 <= i < |cs|
    ensures 0 <= i ==> !cs[i].isRevealed
    ensures forall j :: 0 <= j < |cs| && (i < 0 || j < i) ==> cs[j].isRevealed
  {
    if |cs| == 0 then -1
    else if !cs[0].isRevealed then 0
    else
      var k := FirstUnrevealed(cs[1..]);
      if k < 0 then -1 else k + 1
  }

  /** A position of the cluster: one of its zero cells or of its border. */
  predicate InCluster(c: Cluster, q: Pos) {
    q in c.positionsBombNearby || q in c.safePositions
  }

  /** No position of the cluster is closed any more. */
  ghost predicate ClusterOpened(cells: map<Pos, Cell>, c: Cluster) {
    forall q :: InCluster(c, q) ==> q in cells && cells[q].IsOpen()
  }

  /** The cells once every position of the cluster, border and zero cells
      alike, is given the open status; the rest are as they were. */
  ghost function OpenCluster(cells: map<Pos, Cell>, c: Cluster): map<Pos, Cell> {
    map q | q in cells :: if InCluster(c, q) then cells[q].SetStatus(Opened) else cells[q]
  }

  /** Force-opening a cluster of the index opens exactly that cluster and
      never a bomb: its border cells are numbered and its own cells are zero
      cells. Nothing explodes, nothing else changes, and the board stays
      consistent. */
  lemma OpenClusterSafe(cells: map<Pos, Cell>, kinds: map<Pos, int>, width: int, height: int, cs: seq<Cluster>, i: int)
    requires Consistent(cells, kinds, width, height) && Counted(kinds, width, height)
    requires ClustersValid(kinds, width, height, cs) && 0 <= i < |cs|
    ensures var after := OpenCluster(cells, cs[i]);
      && Consistent(after, kinds, width, height)
      && (forall q :: InCluster(cs[i], q) ==> q in cells && !cells[q].IsBomb())
      && (AnyExploded(after) <==> AnyExploded(cells))
      && ClustersValid(kinds, width, height, cs[i := cs[i].(isRevealed := true)])
  {
    var c := cs[i];
    ClustersValidIgnoresFlags(kinds, width, height, cs, cs[i := c.(isRevealed := true)]);
    var after := OpenCluster(cells, c);
    assert SafeLists(cs)[i] == c.safePositions;
    assert IsSafeCluster(kinds, width, height, c.safePositions);
    BorderIsNumbered(kinds, width, height, c.safePositions, c.positionsBombNearby);
    forall q | InCluster(c, q) ensures q in cells && !cells[q].IsBomb() {
      if q in c.positionsBombNearby {
        assert CELL_MINE_1 <= kinds[q] <= CELL_MINE_8;
      } else {
        assert IsZero(kinds, width, height, q);
      }
    }
    if AnyExploded(after) {
      var q :| q in after && after[q].status == Exploded;
      assert !InCluster(c, q);
    }
    if AnyExploded(cells) {
      var q :| q in cells && cells[q].status == Exploded;
      assert !InCluster(c, q);
    }
  }

  /** Opening a cluster opens every one of its positions on the board and
      changes nothing else. */
  lemma OpenClusterEffect(cells: map<Pos, Cell>, c: Cluster)
    requires forall q :: InCluster(c, q) ==> q in cells
    ensures ClusterOpened(OpenCluster(cells, c), c)
    ensures forall q :: q in cells && !InCluster(c, q) ==> OpenCluster(cells, c)[q] == cells[q]
  {
  }

  /** A freshly built index with its first cluster force-opened on a closed
      board: that cluster, which is one of the largest, is the only one
      marked and the only one whose cells are open. */
  lemma StartState(cells: map<Pos, Cell>, cs: seq<Cluster>, after: map<Pos, Cell>, ds: seq<Cluster>)
    requires forall q :: q in cells ==> cells[q].status == Unopened
    requires forall i :: 0 <= i < |cs| ==> !cs[i].isRevealed
    requires SortedLargestFirst(SafeLists(cs))
    requires var i := FirstUnrevealed(cs);
      && (0 <= i ==> after == OpenCluster(cells, cs[i]) && ds == cs[i := cs[i].(isRevealed := true)])
      && (i < 0 ==> after == cells && ds == cs)
    ensures forall i :: 0 <= i < |ds| ==> (ds[i].isRevealed <==> i == 0)
    ensures forall i :: 0 <= i < |ds| ==> |ds[0].safePositions| >= |ds[i].safePositions|
    ensures forall q :: q in after ==>
      after[q].status == if |ds| > 0 && InCluster(ds[0], q) then Opened else Unopened
  {
    SortedSizes(SafeLists(cs));
    if |cs| > 0 {
      assert FirstUnrevealed(cs) == 0;
      forall i | 0 <= i < |ds| ensures |ds[0].safePositions| >= |ds[i].safePositions| {
        assert SafeLists(cs)[i] == cs[i].safePositions;
      }
    }
  }

  /** The in-bounds eight neighbours of the positions are all open. */
  ghost predicate SurroundingsOpen(cells: map<Pos, Cell>, width: int, height: int, positions: seq<Pos>) {
    forall p, q :: p in positions && InBounds(q, width, height) && q in cells && Adjacent8(p, q) ==> cells[q].IsOpen()
  }

  /** Open surroundings of a cluster's zero cells include its whole border. */
  lemma SurroundingsOpenBorder(cells: map<Pos, Cell>, kinds: map<Pos, int>, width: int, height: int, c: Cluster)
    requires Consistent(cells, kinds, width, height)
    requires IsBorderOf(kinds, width, height, c.safePositions, c.positionsBombNearby)
    requires SurroundingsOpen(cells, width, height, c.safePositions)
    ensures forall q :: q in c.positionsBombNearby ==> cells[q].IsOpen()
  {
    forall q | q in c.positionsBombNearby ensures cells[q].IsOpen() {
      var s :| s in c.safePositions && Adjacent8(s, q);
    }
  }

  class Board {
    const width: nat
    const height: nat
    const numberOfMines: int
    var cells: map<Pos, Cell>
    var gameState: GameState
    var safeClusters: seq<Cluster>
    /** The types of the cells, fixed once the board is built. */
    ghost var Kinds: map<Pos, int>

    /** Every in-bounds position holds a cell. */
    ghost predicate Full()
      reads this
    {
      forall q :: q in cells <==> InBounds(q, width, height)
    }

    /** The grid of a built board. */
    ghost predicate GridValid()
      reads this
    {
      Consistent(cells, Kinds, width, height) && Counted(Kinds, width, height)
    }

    /** A built board: the grid, its cluster index, and a game state of OVER
        only with an exploded cell on the board. */
    ghost predicate Valid()
      reads this
    {
      && GridValid()
      && ClustersValid(Kinds, width, height, safeClusters)
      && (gameState == Over ==> AnyExploded(cells))
    }

    /** Builds a board: every cell closed and of type 0, the mines placed
        from the draws, the counts set, the zero cells grouped into the
        cluster index, and the first (largest) cluster force-opened. */
    constructor (width: nat, height: nat, numberOfMines: int, draws: seq<Pos>)
      requires forall d :: d in draws ==> InBounds(d, width, height)
      requires numberOfMines <= |DrawnSet(draws)|
      ensures Valid()
      ensures gameState == InPlay
      ensures this.width == width && this.height == height && this.numberOfMines == numberOfMines
      ensures |BombSet(Kinds)| == if numberOfMines > 0 then numberOfMines else 0
      ensures BombSet(Kinds) <= DrawnSet(draws)
      ensures exists m :: (0 <= m <= |draws| && BombSet(Kinds) == DrawnSet(draws[..m])
        && |DrawnSet(draws[..m])| == if numberOfMines > 0 then numberOfMines else 0)
      ensures forall i :: 0 <= i < |safeClusters| ==> (safeClusters[i].isRevealed <==> i == 0)
      ensures forall i :: 0 <= i < |safeClusters| ==> |safeClusters[0].safePositions| >= |safeClusters[i].safePositions|
      ensures forall q :: q in cells ==>
        cells[q].status == if |safeClusters| > 0 && InCluster(safeClusters[0], q) then Opened else Unopened
    {
      this.width := width;
      this.height := height;
      this.numberOfMines := numberOfMines;
      gameState := InPlay;
      safeClusters := [];
      Kinds := map[];
      new;
      cells := MakeMap(width, height, Cell(CELL_MINE_0, Unopened));
      Populate(draws);
      assert gameState == InPlay;
      Kinds := KindsOf(cells);
      var clusters := ComputeSafeClusters(cells, Kinds, width, height);
      safeClusters := clusters;
      ghost var c0 := cells;
      assert gameState == InPlay;
      var _ := RevealASafeCluster();
      StartState(c0, clusters, cells, safeClusters);
    }

    /** Places the mines from the draws and counts every other cell: the
        board's cells are then all closed, of valid types and counted, with
        as many bombs as asked for, all on drawn positions. */
    method Populate(draws: seq<Pos>)
      requires Full()
      requires forall q :: q in cells ==> cells[q] == Cell(CELL_MINE_0, Unopened)
      requires forall d :: d in draws ==> InBounds(d, width, height)
      requires numberOfMines <= |DrawnSet(draws)|
      modifies this`cells
      ensures Consistent(cells, KindsOf(cells), width, height) && Counted(KindsOf(cells), width, height)
      ensures forall q :: q in cells ==> cells[q].status == Unopened
      ensures |BombSet(KindsOf(cells))| == if numberOfMines > 0 then numberOfMines else 0
      ensures BombSet(KindsOf(cells)) <= DrawnSet(draws)
      ensures exists m :: (0 <= m <= |draws| && BombSet(KindsOf(cells)) == DrawnSet(draws[..m])
        && |DrawnSet(draws[..m])| == if numberOfMines > 0 then numberOfMines else 0)
    {
      PlaceMines(draws);
      ghost var m :| 0 <= m <= |draws| && BombSet(KindsOf(cells)) == DrawnSet(draws[..m])
        && |DrawnSet(draws[..m])| == if numberOfMines > 0 then numberOfMines else 0;
      assert DrawnSet(draws[..m]) <= DrawnSet(draws);
      Update();
      assert BombSet(KindsOf(cells)) == DrawnSet(draws[..m]);
    }

    /** Places the mines: each draw that hits a cell without a bomb puts one
        there, until the budget is spent. The draws stand for the random
        column and row picks; enough distinct ones must come. */
    method PlaceMines(draws: seq<Pos>)
      requires Full()
      requires forall q :: q in cells ==> cells[q] == Cell(CELL_MINE_0, Unopened)
      requires forall d :: d in draws ==> InBounds(d, width, height)
      requires numberOfMines <= |DrawnSet(draws)|
      modifies this`cells
      ensures Full()
      ensures forall q :: q in cells ==> cells[q].status == Unopened
      ensures forall q :: q in cells ==> cells[q].kind == CELL_MINE_0 || cells[q].kind == CELL_BOMB
      ensures exists m :: (0 <= m <= |draws|
        && BombSet(KindsOf(cells)) == DrawnSet(draws[..m])
        && |DrawnSet(draws[..m])| == if numberOfMines > 0 then numberOfMines else 0)
    {
      var nom := numberOfMines;
      var i := 0;
      while nom > 0
        invariant 0 <= i <= |draws|
        invariant Full()
        invariant forall q :: q in cells ==> cells[q].status == Unopened
        invariant forall q :: q in cells ==>
          if q in DrawnSet(draws[..i]) then cells[q].kind == CELL_BOMB else cells[q].kind == CELL_MINE_0
        invariant numberOfMines > 0 ==> 0 <= nom && |DrawnSet(draws[..i])| == numberOfMines - nom
        invariant numberOfMines <= 0 ==> i == 0 && nom == numberOfMines
        decreases |draws| - i
      {
        if i == |draws| {
          DrawnSetWhole(draws);
          assert false;
        }
        var d := draws[i];
        assert DrawnSet(draws[..i + 1]) == DrawnSet(draws[..i]) + {d} by {
          assert draws[..i + 1] == draws[..i] + [d];
        }
        var cell := cells[d];
        if cell.kind != CELL_BOMB {
          cells := cells[d := cell.(kind := CELL_BOMB)];
          nom := nom - 1;
        }
        i := i + 1;
      }
      assert BombSet(KindsOf(cells)) == DrawnSet(draws[..i]);
    }

    /** Counts the bombs around p the way the board does, walking the eight
        offsets and skipping positions off the board. */
    method CountNearbyBombs(p: Pos) returns (n: nat)
      requires Full()
      ensures n == BombCount(KindsOf(cells), width, height, p)
    {
      n := 0;
      var vectors := NearbyVectors();
      for j := 0 to 8
        invariant n == BombsAmong(KindsOf(cells), width, height, p, j)
      {
        var q := Add(p, vectors[j]);
        if InBounds(q, width, height) {
          if cells[q].kind == CELL_BOMB {
            n := n + 1;
          }
        }
      }
    }

    /** Sets the type of the non-bomb cell p to its count; a bomb stays. */
    method UpdateCell(p: Pos, ghost start: map<Pos, int>)
      requires Full() && InBounds(p, width, height)
      requires forall q :: q in start <==> q in cells
      requires forall q :: q in cells ==> (cells[q].kind == CELL_BOMB <==> start[q] == CELL_BOMB)
      modifies this`cells
      ensures cells == old(cells)[p := CountedCell(old(cells)[p], start, width, height, p)]
    {
      var cell1 := cells[p];
      if cell1.kind != CELL_BOMB {
        var n := CountNearbyBombs(p);
        forall q | InBounds(q, width, height)
          ensures IsBombAt(KindsOf(cells), q) <==> IsBombAt(start, q)
        {
        }
        SameBombsSameCount(KindsOf(cells), start, width, height, p, 8);
        cells := cells[p := cell1.(kind := n)];
      }
    }

    /** The cells before column col of row row (in row-major order) hold
        their counts; the rest are as in c0, whose types are `start`. */
    ghost predicate UpdatedBefore(col: int, row: int, start: map<Pos, int>, c0: map<Pos, Cell>)
      reads this
    {
      && Full()
      && (forall q :: q in c0 <==> q in cells)
      && (forall q :: q in start <==> q in cells)
      && (forall q :: q in c0 ==> start[q] == c0[q].kind)
      && (forall q :: q in cells ==>
            cells[q] == if Before(q, col, row) then CountedCell(c0[q], start, width, height, q) else c0[q])
    }

    /** Counts the cells of one row, left to right. */
    method UpdateRow(row: nat, ghost start: map<Pos, int>, ghost c0: map<Pos, Cell>)
      requires row < height
      requires UpdatedBefore(0, row, start, c0)
      modifies this`cells
      ensures UpdatedBefore(0, row + 1, start, c0)
    {
      for col := 0 to width
        invariant UpdatedBefore(col, row, start, c0)
      {
        UpdateCell((col, row), start);
      }
    }

    /** Sets the type of every non-bomb cell to the number of bombs among its
        in-bounds neighbours. */
    method Update()
      requires Full()
      requires forall q :: q in cells ==> cells[q].kind == CELL_MINE_0 || cells[q].kind == CELL_BOMB
      modifies this`cells
      ensures Full()
      ensures forall q :: q in cells ==> cells[q].status == old(cells)[q].status
      ensures BombSet(KindsOf(cells)) == BombSet(KindsOf(old(cells)))
      ensures forall q :: q in cells ==> ValidKind(cells[q].kind)
      ensures Counted(KindsOf(cells), width, height)
    {
      ghost var start := KindsOf(cells);
      ghost var c0 := cells;
      for row := 0 to height
        invariant UpdatedBefore(0, row, start, c0)
      {
        UpdateRow(row, start, c0);
      }
      UpdatedCounts(KindsOf(cells), start, width, height);
    }

    /** Reveals the cell at p: a zero cell starts the cascade, any other
        unopened cell is opened on its own, an open cell stays. */
    method RevealCells(p: Pos)
      requires GridValid() && InBounds(p, width, height)
      modifies this`cells
      ensures GridValid()
      ensures cells == RevealResult(old(cells), Kinds, width, height, p)
    {
      RevealKeepsConsistent(cells, Kinds, width, height, p);
      var cell1 := cells[p];
      if cell1.kind == CELL_MINE_0 {
        cells := Fill(cells, Kinds, width, height, p);
      } else if cell1.IsUnopened() {
        cells := cells[p := cell1.Open(true)];
      }
    }

    /** Gives every position of the cluster the open status, its border
        first, then its zero cells. None of them may be a bomb. */
    method OpenClusterCells(cluster: Cluster)
      requires forall q :: InCluster(cluster, q) ==> q in cells && !cells[q].IsBomb()
      modifies this`cells
      ensures cells == OpenCluster(old(cells), cluster)
    {
      var border, safe := cluster.positionsBombNearby, cluster.safePositions;
      for j := 0 to |border|
        invariant cells.Keys == old(cells).Keys
        invariant forall q :: q in cells ==>
          cells[q] == if q in border[..j] then old(cells)[q].SetStatus(Opened) else old(cells)[q]
      {
        var cell := cells[border[j]];
        assert cell.kind != CELL_BOMB;
        cells := cells[border[j] := cell.SetStatus(Opened)];
        assert border[..j + 1] == border[..j] + [border[j]];
      }
      assert border[..|border|] == border;
      for j := 0 to |safe|
        invariant cells.Keys == old(cells).Keys
        invariant forall q :: q in cells ==>
          cells[q] == if q in border || q in safe[..j] then old(cells)[q].SetStatus(Opened) else old(cells)[q]
      {
        var cell := cells[safe[j]];
        assert cell.kind != CELL_BOMB;
        cells := cells[safe[j] := cell.SetStatus(Opened)];
        assert safe[..j + 1] == safe[..j] + [safe[j]];
      }
      assert safe[..|safe|] == safe;
    }

    /** The search of the cluster index for the first cluster not yet
        force-opened; -1 when there is none. */
    method FindUnrevealed() returns (i: int)
      ensures i == FirstUnrevealed(safeClusters)
    {
      for k := 0 to |safeClusters|
        invariant forall j :: 0 <= j < k ==> safeClusters[j].isRevealed
      {
        if !safeClusters[k].isRevealed {
          return k;
        }
      }
      return -1;
    }

    /** Force-opens the first cluster not yet opened, and marks it revealed.
        False when every cluster has been. */
    method RevealASafeCluster() returns (found: bool)
      requires Valid()
      modifies this`cells, this`safeClusters
      ensures Valid()
      ensures var i := FirstUnrevealed(old(safeClusters));
        && found == (0 <= i)
        && (0 <= i ==>
              && cells == OpenCluster(old(cells), old(safeClusters)[i])
              && safeClusters == old(safeClusters)[i := old(safeClusters)[i].(isRevealed := true)])
        && (i < 0 ==> cells == old(cells) && safeClusters == old(safeClusters))
    {
      var i := FindUnrevealed();
      if i < 0 {
        return false;
      }
      var cluster := safeClusters[i];
      OpenClusterSafe(cells, Kinds, width, height, safeClusters, i);
      OpenClusterCells(cluster);
      safeClusters := safeClusters[i := cluster.(isRevealed := true)];
      assert Consistent(cells, Kinds, width, height);
      assert AnyExploded(cells) <==> AnyExploded(old(cells));
      return true;
    }

    /** Whether no position of the cluster, border or zero cell, is closed. */
    method IsClusterRevealed(cluster: Cluster) returns (revealed: bool)
      requires forall q :: InCluster(cluster, q) ==> q in cells
      ensures revealed <==> ClusterOpened(cells, cluster)
    {
      var border, safe := cluster.positionsBombNearby, cluster.safePositions;
      for j := 0 to |border|
        invariant forall k :: 0 <= k < j ==> cells[border[k]].IsOpen()
      {
        if cells[border[j]].IsUnopened() {
          return false;
        }
      }
      for j := 0 to |safe|
        invariant forall k :: 0 <= k < j ==> cells[safe[k]].IsOpen()
      {
        if cells[safe[j]].IsUnopened() {
          return false;
        }
      }
      return true;
    }

    /** Whether every in-bounds eight neighbour of the positions is open;
        positions off the board are allowed and only their in-bounds
        neighbours are read. */
    method IsSafeClusterOpen(positions: seq<Pos>) returns (open: bool)
      requires Full()
      ensures open <==> SurroundingsOpen(cells, width, height, positions)
    {
      var vectors := NearbyVectors();
      for i := 0 to |positions|
        invariant SurroundingsOpen(cells, width, height, positions[..i])
      {
        var p := positions[i];
        for j := 0 to 8
          invariant forall q :: q in Reached(p, j) && InBounds(q, width, height) ==> cells[q].IsOpen()
        {
          var q := Add(p, vectors[j]);
          ReachedStep(p, j + 1);
          if InBounds(q, width, height) {
            if cells[q].IsUnopened() {
              ReachedAll(p);
              assert p in positions && q in Reached(p, j + 1) && Adjacent8(p, q);
              return false;
            }
          }
        }
        ReachedAll(p);
        assert positions[..i + 1] == positions[..i] + [p];
      }
      assert positions[..|positions|] == positions;
      return true;
    }

    /** Some cell has exploded; the cells are read in row-major order and the
        first explosion ends the search. */
    method IsGameOver() returns (over: bool)
      requires Full()
      ensures over <==> AnyExploded(cells)
    {
      for row := 0 to height
        invariant forall q :: q in cells && Before(q, 0, row) ==> cells[q].status != Exploded
      {
        for col := 0 to width
          invariant forall q :: q in cells && Before(q, col, row) ==> cells[q].status != Exploded
        {
          if cells[(col, row)].status == Exploded {
            return true;
          }
        }
      }
      return false;
    }

    /** Every cell is open or a flagged bomb; the first other cell ends the
        search. */
    method IsGameCompleted() returns (completed: bool)
      requires Full()
      ensures completed <==> AllCleared(cells)
    {
      for row := 0 to height
        invariant forall q :: q in cells && Before(q, 0, row) ==>
          (cells[q].IsBomb() && cells[q].status == Flag) || cells[q].IsOpen()
      {
        for col := 0 to width
          invariant forall q :: q in cells && Before(q, col, row) ==>
            (cells[q].IsBomb() && cells[q].status == Flag) || cells[q].IsOpen()
        {
          var cell := cells[(col, row)];
          if cell.kind == CELL_BOMB && cell.status == Flag {
            continue;
          } else if cell.IsUnopened() {
            return false;
          }
        }
      }
      return true;
    }

    /** OVER on an explosion, else COMPLETED when everything is cleared. */
    method CheckGameState()
      requires Full()
      modifies this`gameState
      ensures gameState == NextGameState(cells, old(gameState))
    {
      var over := IsGameOver();
      if over {
        gameState := Over;
      } else {
        var completed := IsGameCompleted();
        if completed {
          gameState := Completed;
        }
      }
    }

    /** A left click on p: a reveal when p is on the board and unopened, then
        the state check. */
    method LeftClick(p: Pos)
      requires Valid()
      modifies this`cells, this`gameState
      ensures Valid()
      ensures cells == LeftClickResult(old(cells), Kinds, width, height, p)
      ensures gameState == NextGameState(cells, old(gameState))
    {
      LeftClickKeepsConsistent(cells, Kinds, width, height, p);
      if InBounds(p, width, height) {
        if cells[p].IsUnopened() {
          RevealCells(p);
        }
      }
      CheckGameState();
    }

    /** A right click on p: the flag cycle on an unopened cell, then the state
        check. */
    method RightClick(p: Pos)
      requires Valid()
      modifies this`cells, this`gameState
      ensures Valid()
      ensures cells == RightClickResult(old(cells), width, height, p)
      ensures gameState == NextGameState(cells, old(gameState))
    {
      RightClickFrame(cells, width, height, p);
      if InBounds(p, width, height) {
        var cell := cells[p];
        if cell.status == Unopened {
          cells := cells[p := cell.SetStatus(Flag)];
        } else if cell.status == Flag {
          cells := cells[p := cell.SetStatus(Question)];
        } else if cell.status == Question {
          cells := cells[p := cell.SetStatus(Unopened)];
        }
      }
      CheckGameState();
    }

    /** The end-of-game reveal: every cell opened as `open(in_play)` opens it.
        The board stays valid: an exploded cell stays exploded, and only a
        bomb can explode. */
    method RevealAllCells(inPlay: bool)
      requires Valid()
      modifies this`cells
      ensures Valid()
      ensures cells == OpenAll(old(cells), inPlay)
    {
      ghost var c0 := cells;
      OpenEveryCell(inPlay);
      OpenAllOutcome(c0, inPlay);
    }

    /** Opens every cell in place, row by row. */
    method OpenEveryCell(inPlay: bool)
      requires Full()
      modifies this`cells
      ensures cells == OpenAll(old(cells), inPlay)
    {
      ghost var c0 := cells;
      for row := 0 to height
        invariant forall q :: q in cells <==> q in c0
        invariant forall q :: q in cells ==> cells[q] == if Before(q, 0, row) then c0[q].Open(inPlay) else c0[q]
      {
        for col := 0 to width
          invariant forall q :: q in cells <==> q in c0
          invariant forall q :: q in cells ==> cells[q] == if Before(q, col, row) then c0[q].Open(inPlay) else c0[q]
        {
          cells := cells[(col, row) := cells[(col, row)].Open(inPlay)];
        }
      }
    }

    /** The number of flagged cells, counted row by row. */
    method NumberOfFlags() returns (n: nat)
      requires Full()
      ensures n == |FlagPositions(cells)|
    {
      n := 0;
      for row := 0 to height
        invariant n == |FlagsBefore(cells, 0, row)|
      {
        for col := 0 to width
          invariant n == |FlagsBefore(cells, col, row)|
        {
          var p := (col, row);
          if cells[p].status == Flag {
            assert FlagsBefore(cells, col + 1, row) == FlagsBefore(cells, col, row) + {p};
            n := n + 1;
          } else {
            assert FlagsBefore(cells, col + 1, row) == FlagsBefore(cells, col, row);
          }
        }
        assert FlagsBefore(cells, width, row) == FlagsBefore(cells, 0, row + 1);
      }
      assert FlagsBefore(cells, 0, height) == FlagPositions(cells);
    }

    /** The board as text, row by row: each cell's two-letter code, the
        codes separated and enclosed by '|', each line ended by "\r\n". */
    method Description() returns (s: string)
      requires GridValid()
      ensures Printable(cells, width, height)
      ensures s == Lines(cells, width, height, height)
    {
      s := Describe(cells, width, height);
    }
  }
}
