/** What a left click does to the cells of a built board: the flood fill from
    a zero cell, the single-cell reveal otherwise, stated as functions of the
    cells before the click. */
module Cascade {
  import opened Cells
  import opened Grid

  /** The cells of a built board: every in-bounds position holds one cell,
      its type is the one the type map records and is a valid type, and only
      a bomb can have exploded. */
  ghost predicate Consistent(cells: map<Pos, Cell>, kinds: map<Pos, int>, width: int, height: int) {
    && (forall q :: q in cells <==> InBounds(q, width, height))
    && (forall q :: q in kinds <==> q in cells)
    && (forall q :: q in cells ==> cells[q].kind == kinds[q] && ValidKind(kinds[q]))
    && (forall q :: q in cells && cells[q].status == Exploded ==> cells[q].IsBomb())
  }

  /** Every non-bomb cell holds the number of bombs among its in-bounds neighbours. */
  ghost predicate Counted(kinds: map<Pos, int>, width: int, height: int) {
    forall q :: q in kinds && kinds[q] != CELL_BOMB ==> kinds[q] == BombCount(kinds, width, height, q)
  }

  /** The treatment of a numbered neighbour of the cascade: opened only when
      it is plainly unopened (not flagged, not questioned) and not a bomb. */
  function BorderOpen(c: Cell): Cell {
    if c.status == Unopened && !c.IsBomb() then c.Open(true) else c
  }

  /** q touches the region. */
  ghost predicate NearRegion(region: set<Pos>, q: Pos) {
    exists r :: r in region && Adjacent8(r, q)
  }

  /** The cells after a cascade that opened `region`: the region itself is
      opened, its neighbours get the border treatment, the rest is untouched. */
  ghost function AfterCascade(cells: map<Pos, Cell>, region: set<Pos>): map<Pos, Cell> {
    map q | q in cells ::
      if q in region then cells[q].Open(true)
      else if NearRegion(region, q) then BorderOpen(cells[q])
      else cells[q]
  }

  /** The cells after revealing p: a zero cell opens the zero cells reachable
      from it through the eight neighbours, with their border; any other
      unopened cell is opened on its own. */
  ghost function RevealResult(cells: map<Pos, Cell>, kinds: map<Pos, int>, width: int, height: int, p: Pos): map<Pos, Cell>
    requires p in cells
  {
    if cells[p].kind == CELL_MINE_0 then AfterCascade(cells, Region(kinds, width, height, Eight, p))
    else if cells[p].IsUnopened() then cells[p := cells[p].Open(true)]
    else cells
  }

  /** The cells after a left click on p: a reveal only when p is on the board
      and still unopened (flagged and questioned cells included). */
  ghost function LeftClickResult(cells: map<Pos, Cell>, kinds: map<Pos, int>, width: int, height: int, p: Pos): map<Pos, Cell> {
    if InBounds(p, width, height) && p in cells && cells[p].IsUnopened() then RevealResult(cells, kinds, width, height, p)
    else cells
  }

  lemma RegionIsZero(kinds: map<Pos, int>, width: int, height: int, p: Pos, q: Pos)
    requires q in Region(kinds, width, height, Eight, p)
    ensures IsZero(kinds, width, height, q)
  {
    var path :| PathFromTo(kinds, width, height, Eight, path, p, q);
    assert IsZero(kinds, width, height, path[|path| - 1]);
  }

  lemma StartInRegion(kinds: map<Pos, int>, width: int, height: int, p: Pos)
    requires IsZero(kinds, width, height, p)
    ensures p in Region(kinds, width, height, Eight, p)
  {
    assert PathFromTo(kinds, width, height, Eight, [p], p, p);
  }

  /** What a cascade from a zero cell does: it never touches a bomb, it only
      ever opens, it opens the whole reachable zero region and every plainly
      unopened neighbour of it, and it leaves flagged or questioned numbered
      neighbours and every other cell alone. */
  lemma CascadeEffect(cells: map<Pos, Cell>, kinds: map<Pos, int>, width: int, height: int, p: Pos)
    requires Consistent(cells, kinds, width, height)
    requires IsZero(kinds, width, height, p)
    ensures var region := Region(kinds, width, height, Eight, p);
      var after := AfterCascade(cells, region);
      && p in region
      && (forall q :: q in after <==> q in cells)
      && (forall q :: q in cells && cells[q].IsBomb() ==> after[q] == cells[q])
      && (forall q :: q in cells ==> after[q].kind == cells[q].kind)
      && (forall q :: q in cells ==> after[q] == cells[q] || after[q].status == Opened)
      && (forall q :: q in region ==> q in cells && after[q].status == Opened)
      && (forall q :: q in cells && q !in region && NearRegion(region, q) && cells[q].status == Unopened && !cells[q].IsBomb()
            ==> after[q].status == Opened)
      && (forall q :: q in cells && q !in region && (cells[q].status == Flag || cells[q].status == Question)
            ==> after[q] == cells[q])
      && (forall q :: q in cells && q !in region && !NearRegion(region, q) ==> after[q] == cells[q])
  {
    var region := Region(kinds, width, height, Eight, p);
    StartInRegion(kinds, width, height, p);
    forall q | q in region
      ensures q in cells && kinds[q] == CELL_MINE_0
    {
      RegionIsZero(kinds, width, height, p, q);
    }
  }

  /** A second left click on the same cell changes nothing: the first one
      always leaves that cell open. */
  lemma LeftClickIdempotent(cells: map<Pos, Cell>, kinds: map<Pos, int>, width: int, height: int, p: Pos)
    requires Consistent(cells, kinds, width, height)
    ensures var once := LeftClickResult(cells, kinds, width, height, p);
      LeftClickResult(once, kinds, width, height, p) == once
  {
    if InBounds(p, width, height) && cells[p].IsUnopened() && cells[p].kind == CELL_MINE_0 {
      StartInRegion(kinds, width, height, p);
    }
  }

  /** A reveal keeps the board built. */
  lemma RevealKeepsConsistent(cells: map<Pos, Cell>, kinds: map<Pos, int>, width: int, height: int, p: Pos)
    requires Consistent(cells, kinds, width, height) && p in cells
    ensures Consistent(RevealResult(cells, kinds, width, height, p), kinds, width, height)
  {
  }

  /** The cells part-way through a cascade from s: the cells pushed so far
      (`visited`) are open, except s itself before it is first popped; the
      neighbours examined so far (`touched`) have had the border treatment;
      everything else is as it was. */
  ghost function CascadeAt(c0: map<Pos, Cell>, s: Pos, visited: set<Pos>, done: set<Pos>, touched: set<Pos>, q: Pos): Cell
    requires q in c0
  {
    if q in visited then (if q == s && s !in done then c0[q] else c0[q].Open(true))
    else if q in touched then BorderOpen(c0[q])
    else c0[q]
  }

  /** Pushing the unvisited zero cell n: opening its current cell gives what
      the cascade state says it should be once n is visited. */
  lemma CascadeAtPush(c0: map<Pos, Cell>, s: Pos, visited: set<Pos>, done: set<Pos>, touched: set<Pos>, n: Pos)
    requires n in c0 && n !in visited && s in visited && !c0[n].IsBomb()
    ensures CascadeAt(c0, s, visited, done, touched, n).Open(true) == CascadeAt(c0, s, visited + {n}, done, touched + {n}, n)
  {
  }

  /** Examining an already visited or numbered neighbour n: the border
      treatment of its current cell is what the state says it should be once
      n is touched. */
  lemma CascadeAtBorder(c0: map<Pos, Cell>, s: Pos, visited: set<Pos>, done: set<Pos>, touched: set<Pos>, n: Pos)
    requires n in c0 && s in done
    ensures BorderOpen(CascadeAt(c0, s, visited, done, touched, n)) == CascadeAt(c0, s, visited, done, touched + {n}, n)
  {
    if n in visited {
      OpenIdempotent(c0[n], true, true);
    }
  }

  /** A left click never changes an exploded cell and keeps the board built. */
  lemma LeftClickKeepsConsistent(cells: map<Pos, Cell>, kinds: map<Pos, int>, width: int, height: int, p: Pos)
    requires Consistent(cells, kinds, width, height)
    ensures var after := LeftClickResult(cells, kinds, width, height, p);
      && Consistent(after, kinds, width, height)
      && (forall q :: q in cells && cells[q].status == Exploded ==> after[q] == cells[q])
  {
  }
}
