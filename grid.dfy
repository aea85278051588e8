/** Board geometry: positions, the neighbour offsets, bomb counts and
    paths of zero cells. Everything here reads a board's types as a map
    from position to type. */
module Grid {
  import opened Cells

  /** A cell position (col, row). */
  type Pos = (int, int)

  predicate InBounds(p: Pos, width: int, height: int) {
    0 <= p.0 < width && 0 <= p.1 < height
  }

  function Add(p: Pos, v: Pos): Pos {
    (p.0 + v.0, p.1 + v.1)
  }

  /** The eight offsets used for counting bombs and for the reveal cascade, in
      the order the board walks them. */
  function NearbyVectors(): (vs: seq<Pos>)
    ensures |vs| == 8
  {
    [(-1, -1), (-1, 0), (-1, 1), (0, 1), (1, 1), (1, 0), (1, -1), (0, -1)]
  }

  /** The eight offsets are the eight non-zero unit steps, each listed once. */
  lemma NearbyVectorsExact()
    ensures forall v :: v in NearbyVectors() <==> v != (0, 0) && -1 <= v.0 <= 1 && -1 <= v.1 <= 1
    ensures forall i, j :: 0 <= i < j < 8 ==> NearbyVectors()[i] != NearbyVectors()[j]
  {
  }

  /** The four offsets (up, left, down, right) used to group zero cells into clusters. */
  function SideVectors(): (vs: seq<Pos>)
    ensures |vs| == 4
  {
    [(0, -1), (-1, 0), (0, 1), (1, 0)]
  }

  /** The two neighbourhoods of the board. */
  datatype Adjacency = Eight | Four

  predicate Adjacent(adj: Adjacency, p: Pos, q: Pos) {
    match adj
    case Eight => p != q && -1 <= q.0 - p.0 <= 1 && -1 <= q.1 - p.1 <= 1
    case Four =>
      || (q.0 == p.0 && (q.1 - p.1 == 1 || p.1 - q.1 == 1))
      || (q.1 == p.1 && (q.0 - p.0 == 1 || p.0 - q.0 == 1))
  }

  function Vectors(adj: Adjacency): seq<Pos> {
    match adj
    case Eight => NearbyVectors()
    case Four => SideVectors()
  }

  /** Walking the offset list visits exactly the neighbours of a position. */
  lemma VectorsAreNeighbours(adj: Adjacency, p: Pos, j: int)
    requires 0 <= j < |Vectors(adj)|
    ensures Adjacent(adj, p, Add(p, Vectors(adj)[j]))
  {
  }

  /** The index of the offset that leads from p to its neighbour q. */
  function OffsetIndex(adj: Adjacency, p: Pos, q: Pos): (j: nat)
    requires Adjacent(adj, p, q)
    ensures j < |Vectors(adj)| && Add(p, Vectors(adj)[j]) == q
  {
    var d := (q.0 - p.0, q.1 - p.1);
    match adj
    case Eight =>
      if d == (-1, -1) then 0 else if d == (-1, 0) then 1 else if d == (-1, 1) then 2
      else if d == (0, 1) then 3 else if d == (1, 1) then 4 else if d == (1, 0) then 5
      else if d == (1, -1) then 6 else 7
    case Four =>
      if d == (0, -1) then 0 else if d == (-1, 0) then 1 else if d == (0, 1) then 2 else 3
  }

  /** Row-major order: q comes before column col of row row. */
  predicate Before(q: Pos, col: int, row: int) {
    q.1 < row || (q.1 == row && q.0 < col)
  }

  /** A proper subset is smaller. */
  lemma ProperSubsetSmaller(a: set<Pos>, b: set<Pos>)
    requires a < b
    ensures |a| < |b|
  {
    assert b - a != {};
    assert b == a + (b - a);
  }

  /** A map holding `value` at every in-bounds position. */
  method MakeMap<T>(width: nat, height: nat, value: T) returns (values: map<Pos, T>)
    ensures forall q :: q in values <==> InBounds(q, width, height)
    ensures forall q :: q in values ==> values[q] == value
  {
    values := map[];
    for row := 0 to height
      invariant forall q :: q in values <==> InBounds(q, width, height) && Before(q, 0, row)
      invariant forall q :: q in values ==> values[q] == value
    {
      for col := 0 to width
        invariant forall q :: q in values <==> InBounds(q, width, height) && Before(q, col, row)
        invariant forall q :: q in values ==> values[q] == value
      {
        values := values[(col, row) := value];
      }
    }
  }

  predicate Adjacent8(p: Pos, q: Pos) {
    Adjacent(Eight, p, q)
  }

  /** Adjacency is symmetric in both neighbourhoods. */
  lemma AdjacentSymmetric(adj: Adjacency, p: Pos, q: Pos)
    ensures Adjacent(adj, p, q) <==> Adjacent(adj, q, p)
  {
  }

  /** A side neighbour is also one of the eight neighbours. */
  lemma FourIsEight(p: Pos, q: Pos)
    ensures Adjacent(Four, p, q) ==> Adjacent(Eight, p, q)
  {
  }

  // ---------------------------------------------------------------------
  // Bomb counts

  predicate IsBombAt(kinds: map<Pos, int>, q: Pos) {
    q in kinds && kinds[q] == CELL_BOMB
  }

  /** The number of bombs met by the first k offsets around p, counting only
      in-bounds positions, as the board's counting loop does. */
  function BombsAmong(kinds: map<Pos, int>, width: int, height: int, p: Pos, k: nat): (n: nat)
    requires k <= 8
    ensures n <= k
  {
    if k == 0 then 0
    else
      var q := Add(p, NearbyVectors()[k - 1]);
      BombsAmong(kinds, width, height, p, k - 1) + (if InBounds(q, width, height) && IsBombAt(kinds, q) then 1 else 0)
  }

  function BombCount(kinds: map<Pos, int>, width: int, height: int, p: Pos): nat {
    BombsAmong(kinds, width, height, p, 8)
  }

  /** The in-bounds bomb positions among the eight neighbours of p. */
  ghost function AdjacentBombs(kinds: map<Pos, int>, width: int, height: int, p: Pos): set<Pos> {
    set q | q in kinds && InBounds(q, width, height) && Adjacent8(p, q) && kinds[q] == CELL_BOMB
  }

  ghost function Reached(p: Pos, k: nat): set<Pos>
    requires k <= 8
  {
    set j | 0 <= j < k :: Add(p, NearbyVectors()[j])
  }

  ghost function BombsReached(kinds: map<Pos, int>, width: int, height: int, p: Pos, k: nat): set<Pos>
    requires k <= 8
  {
    set q | q in Reached(p, k) && InBounds(q, width, height) && IsBombAt(kinds, q)
  }

  lemma ReachedStep(p: Pos, k: nat)
    requires 0 < k <= 8
    ensures Reached(p, k) == Reached(p, k - 1) + {Add(p, NearbyVectors()[k - 1])}
    ensures Add(p, NearbyVectors()[k - 1]) !in Reached(p, k - 1)
  {
    var vs := NearbyVectors();
    var q := Add(p, vs[k - 1]);
    NearbyVectorsExact();
    forall j | 0 <= j < k - 1
      ensures Add(p, vs[j]) != q
    {
      assert vs[j] != vs[k - 1];
      AddCancels(p, vs[j], vs[k - 1]);
    }
  }

  /** Distinct offsets lead from one cell to distinct cells. */
  lemma AddCancels(p: Pos, u: Pos, v: Pos)
    ensures Add(p, u) == Add(p, v) ==> u == v
  {
  }

  lemma {:induction false} BombsAmongIsCard(kinds: map<Pos, int>, width: int, height: int, p: Pos, k: nat)
    requires k <= 8
    ensures BombsAmong(kinds, width, height, p, k) == |BombsReached(kinds, width, height, p, k)|
  {
    if k == 0 {
      assert BombsReached(kinds, width, height, p, 0) == {};
    } else {
      BombsAmongIsCard(kinds, width, height, p, k - 1);
      var q := Add(p, NearbyVectors()[k - 1]);
      ReachedStep(p, k);
      var before := BombsReached(kinds, width, height, p, k - 1);
      assert q !in before;
      if InBounds(q, width, height) && IsBombAt(kinds, q) {
        assert BombsReached(kinds, width, height, p, k) == before + {q};
      } else {
        assert BombsReached(kinds, width, height, p, k) == before;
      }
    }
  }

  lemma ReachedAll(p: Pos)
    ensures forall q :: q in Reached(p, 8) <==> Adjacent8(p, q)
  {
    forall q ensures q in Reached(p, 8) <==> Adjacent8(p, q) {
      if Adjacent8(p, q) {
        var j := OffsetIndex(Eight, p, q);
      }
      if q in Reached(p, 8) {
        var j :| 0 <= j < 8 && Add(p, NearbyVectors()[j]) == q;
        VectorsAreNeighbours(Eight, p, j);
      }
    }
  }

  /** The count the board stores is the number of in-bounds bombs among the
      eight neighbours, whatever the order of the offsets, at edges and
      corners alike. */
  lemma BombCountIsAdjacentBombs(kinds: map<Pos, int>, width: int, height: int, p: Pos)
    ensures BombCount(kinds, width, height, p) == |AdjacentBombs(kinds, width, height, p)|
    ensures BombCount(kinds, width, height, p) <= 8
  {
    BombsAmongIsCard(kinds, width, height, p, 8);
    ReachedAll(p);
    assert BombsReached(kinds, width, height, p, 8) == AdjacentBombs(kinds, width, height, p);
  }

  /** Two type maps with the same bombs give the same counts. */
  lemma {:induction false} SameBombsSameCount(k1: map<Pos, int>, k2: map<Pos, int>, width: int, height: int, p: Pos, k: nat)
    requires k <= 8
    requires forall q :: InBounds(q, width, height) ==> (IsBombAt(k1, q) <==> IsBombAt(k2, q))
    ensures BombsAmong(k1, width, height, p, k) == BombsAmong(k2, width, height, p, k)
  {
    if k > 0 {
      SameBombsSameCount(k1, k2, width, height, p, k - 1);
    }
  }

  /** A zero count means no in-bounds neighbour is a bomb. */
  lemma ZeroCountNoAdjacentBomb(kinds: map<Pos, int>, width: int, height: int, p: Pos, q: Pos)
    requires BombCount(kinds, width, height, p) == 0
    requires InBounds(q, width, height) && Adjacent8(p, q)
    ensures !IsBombAt(kinds, q)
  {
    BombCountIsAdjacentBombs(kinds, width, height, p);
    assert IsBombAt(kinds, q) ==> q in AdjacentBombs(kinds, width, height, p);
  }

  // ---------------------------------------------------------------------
  // Zero cells and the paths between them

  /** An in-bounds cell with no bomb nearby. */
  predicate IsZero(kinds: map<Pos, int>, width: int, height: int, q: Pos) {
    InBounds(q, width, height) && q in kinds && kinds[q] == CELL_MINE_0
  }

  /** A walk through zero cells, each step to a neighbour. */
  ghost predicate IsZeroPath(kinds: map<Pos, int>, width: int, height: int, adj: Adjacency, path: seq<Pos>) {
    && |path| > 0
    && (forall i :: 0 <= i < |path| ==> IsZero(kinds, width, height, path[i]))
    && (forall i :: 0 <= i < |path| - 1 ==> Adjacent(adj, path[i], path[i + 1]))
  }

  ghost predicate PathFromTo(kinds: map<Pos, int>, width: int, height: int, adj: Adjacency, path: seq<Pos>, a: Pos, b: Pos) {
    IsZeroPath(kinds, width, height, adj, path) && path[0] == a && path[|path| - 1] == b
  }

  /** b can be reached from a through zero cells. */
  ghost predicate Reachable(kinds: map<Pos, int>, width: int, height: int, adj: Adjacency, a: Pos, b: Pos) {
    exists path :: PathFromTo(kinds, width, height, adj, path, a, b)
  }

  /** A set of positions that no step through zero cells leads out of. */
  ghost predicate ZeroClosed(kinds: map<Pos, int>, width: int, height: int, adj: Adjacency, s: set<Pos>) {
    forall q, r :: q in s && Adjacent(adj, q, r) && IsZero(kinds, width, height, r) ==> r in s
  }

  lemma PathExtend(kinds: map<Pos, int>, width: int, height: int, adj: Adjacency, path: seq<Pos>, a: Pos, b: Pos, c: Pos)
    requires PathFromTo(kinds, width, height, adj, path, a, b)
    requires Adjacent(adj, b, c) && IsZero(kinds, width, height, c)
    ensures PathFromTo(kinds, width, height, adj, path + [c], a, c)
  {
  }

  /** A closed set that holds the start holds everything reachable from it. */
  lemma {:induction false} ClosedHoldsReachable(kinds: map<Pos, int>, width: int, height: int, adj: Adjacency, s: set<Pos>, a: Pos, b: Pos)
    requires a in s && ZeroClosed(kinds, width, height, adj, s)
    requires Reachable(kinds, width, height, adj, a, b)
    ensures b in s
  {
    var path :| PathFromTo(kinds, width, height, adj, path, a, b);
    var i := 0;
    while i < |path| - 1
      invariant 0 <= i < |path|
      invariant path[i] in s
    {
      assert Adjacent(adj, path[i], path[i + 1]) && IsZero(kinds, width, height, path[i + 1]);
      i := i + 1;
    }
  }

  /** The zero cells reachable from a, among the keys of the board. */
  ghost function Region(kinds: map<Pos, int>, width: int, height: int, adj: Adjacency, a: Pos): set<Pos> {
    set q | q in kinds && Reachable(kinds, width, height, adj, a, q)
  }
}
