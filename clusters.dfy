/** Safe clusters: the zero cells of a board grouped into side-connected
    components, largest first, each with the numbered cells around it. */
module Clusters {
  import opened Cells
  import opened Grid
  import opened Cascade

  /** A cluster of zero cells, the cells bordering it that have a bomb
      nearby, and whether it has been force-opened already. */
  datatype Cluster = Cluster(safePositions: seq<Pos>, positionsBombNearby: seq<Pos>, isRevealed: bool)

  predicate Distinct(s: seq<Pos>) {
    forall i, j :: 0 <= i < j < |s| ==> s[i] != s[j]
  }

  /** A non-empty list of distinct zero cells, each reachable from the first
      through side-adjacent zero cells, and closed: no side step through a
      zero cell leads out of it. In other words, one whole side-connected
      component of the zero cells. */
  ghost predicate IsSafeCluster(kinds: map<Pos, int>, width: int, height: int, g: seq<Pos>) {
    && |g| > 0
    && Distinct(g)
    && (forall q :: q in g ==> IsZero(kinds, width, height, q))
    && (forall q :: q in g ==> Reachable(kinds, width, height, Four, g[0], q))
    && (forall q, r :: q in g && Adjacent(Four, q, r) && IsZero(kinds, width, height, r) ==> r in g)
  }

  ghost predicate Disjoint(a: seq<Pos>, b: seq<Pos>) {
    forall q :: q in a ==> q !in b
  }

  ghost predicate PairwiseDisjoint(gs: seq<seq<Pos>>) {
    forall i, j :: 0 <= i < j < |gs| ==> Disjoint(gs[i], gs[j])
  }

  ghost predicate CoversZeros(kinds: map<Pos, int>, width: int, height: int, gs: seq<seq<Pos>>) {
    forall q :: IsZero(kinds, width, height, q) ==> exists i :: 0 <= i < |gs| && q in gs[i]
  }

  /** The clusters split the zero cells: each lies in exactly one cluster,
      and each cluster is a whole side-connected component. */
  ghost predicate SafePartition(kinds: map<Pos, int>, width: int, height: int, gs: seq<seq<Pos>>) {
    && (forall i :: 0 <= i < |gs| ==> IsSafeCluster(kinds, width, height, gs[i]))
    && PairwiseDisjoint(gs)
    && CoversZeros(kinds, width, height, gs)
  }

  // ---------------------------------------------------------------------
  // Ordering. Clusters are sorted as pairs (number of positions, positions)
  // and the result is reversed, so: by size, then by the position lists
  // compared element by element, each position compared column first.

  predicate PosLess(a: Pos, b: Pos) {
    a.0 < b.0 || (a.0 == b.0 && a.1 < b.1)
  }

  predicate ListLess(a: seq<Pos>, b: seq<Pos>)
    decreases |a|
  {
    if |a| == 0 then |b| > 0
    else if |b| == 0 then false
    else PosLess(a[0], b[0]) || (a[0] == b[0] && ListLess(a[1..], b[1..]))
  }

  predicate KeyLess(a: seq<Pos>, b: seq<Pos>) {
    |a| < |b| || (|a| == |b| && ListLess(a, b))
  }

  lemma {:induction false} ListLessAsymmetric(a: seq<Pos>, b: seq<Pos>)
    ensures ListLess(a, b) ==> !ListLess(b, a)
    decreases |a|
  {
    if |a| > 0 && |b| > 0 && a[0] == b[0] {
      ListLessAsymmetric(a[1..], b[1..]);
    }
  }

  ghost predicate SortedLargestFirst(gs: seq<seq<Pos>>) {
    forall i :: 0 <= i < |gs| - 1 ==> !KeyLess(gs[i], gs[i + 1])
  }

  function Insert(x: seq<Pos>, s: seq<seq<Pos>>): (r: seq<seq<Pos>>)
    requires SortedLargestFirst(s)
    ensures SortedLargestFirst(r)
    ensures multiset(r) == multiset(s) + multiset{x}
    ensures r[0] == x || (|s| > 0 && r[0] == s[0])
  {
    if s == [] || !KeyLess(x, s[0]) then
      [x] + s
    else
      ListLessAsymmetric(x, s[0]);
      var rest := Insert(x, s[1..]);
      assert s == [s[0]] + s[1..];
      [s[0]] + rest
  }

  /** The order the clusters are kept in: largest first, as the sort of
      (size, positions) pairs followed by a reversal gives it. */
  function SortLargestFirst(xs: seq<seq<Pos>>): (r: seq<seq<Pos>>)
    ensures SortedLargestFirst(r)
    ensures multiset(r) == multiset(xs)
  {
    if xs == [] then []
    else
      assert xs == [xs[0]] + xs[1..];
      Insert(xs[0], SortLargestFirst(xs[1..]))
  }

  /** Sorted largest first means sizes never grow along the list. */
  lemma {:induction false} SortedSizes(gs: seq<seq<Pos>>)
    requires SortedLargestFirst(gs)
    ensures forall i, j :: 0 <= i < j < |gs| ==> |gs[i]| >= |gs[j]|
  {
    forall i, j | 0 <= i < j < |gs|
      ensures |gs[i]| >= |gs[j]|
    {
      var k := i;
      while k < j
        invariant i <= k <= j
        invariant |gs[i]| >= |gs[k]|
      {
        assert !KeyLess(gs[k], gs[k + 1]);
        k := k + 1;
      }
    }
  }

  lemma TailDisjoint(s: seq<seq<Pos>>)
    requires |s| > 0 && PairwiseDisjoint(s)
    ensures PairwiseDisjoint(s[1..])
  {
    var t := s[1..];
    forall i, j | 0 <= i < j < |t| ensures Disjoint(t[i], t[j]) {
      assert t[i] == s[i + 1] && t[j] == s[j + 1];
    }
  }

  lemma ConsDisjoint(a: seq<Pos>, t: seq<seq<Pos>>)
    requires PairwiseDisjoint(t)
    requires forall g :: g in t ==> Disjoint(a, g)
    ensures PairwiseDisjoint([a] + t)
  {
    var r := [a] + t;
    forall i, j | 0 <= i < j < |r| ensures Disjoint(r[i], r[j]) {
      assert r[j] == t[j - 1];
      if i > 0 {
        assert r[i] == t[i - 1];
      }
    }
  }

  lemma {:induction false} InsertKeepsDisjoint(x: seq<Pos>, s: seq<seq<Pos>>)
    requires SortedLargestFirst(s) && PairwiseDisjoint(s)
    requires forall g :: g in s ==> Disjoint(x, g) && Disjoint(g, x)
    ensures PairwiseDisjoint(Insert(x, s))
  {
    if s == [] || !KeyLess(x, s[0]) {
      ConsDisjoint(x, s);
    } else {
      var tail := s[1..];
      TailDisjoint(s);
      forall g | g in tail ensures Disjoint(x, g) && Disjoint(g, x) {
        assert g in s;
      }
      InsertKeepsDisjoint(x, tail);
      var rest := Insert(x, tail);
      forall g | g in rest ensures Disjoint(s[0], g) {
        assert g in multiset(rest);
        if g == x {
          assert s[0] in s;
        } else {
          assert g in multiset(tail);
          var k :| 0 <= k < |tail| && tail[k] == g;
          assert tail[k] == s[k + 1];
        }
      }
      ConsDisjoint(s[0], rest);
    }
  }

  /** Sorting keeps disjoint clusters disjoint. */
  lemma {:induction false} SortKeepsDisjoint(xs: seq<seq<Pos>>)
    requires PairwiseDisjoint(xs)
    ensures PairwiseDisjoint(SortLargestFirst(xs))
  {
    if xs != [] {
      var tail := xs[1..];
      assert PairwiseDisjoint(tail) by {
        forall i, j | 0 <= i < j < |tail| ensures Disjoint(tail[i], tail[j]) {
          assert tail[i] == xs[i + 1] && tail[j] == xs[j + 1];
        }
      }
      SortKeepsDisjoint(tail);
      var sorted := SortLargestFirst(tail);
      forall g | g in sorted ensures Disjoint(xs[0], g) && Disjoint(g, xs[0]) {
        assert g in multiset(sorted);
        assert g in multiset(tail);
        var k :| 0 <= k < |tail| && tail[k] == g;
        assert tail[k] == xs[k + 1];
        assert Disjoint(xs[0], xs[k + 1]);
      }
      InsertKeepsDisjoint(xs[0], sorted);
    }
  }

  /** Reordering the clusters keeps them a partition of the zero cells. */
  lemma SortKeepsPartition(kinds: map<Pos, int>, width: int, height: int, xs: seq<seq<Pos>>)
    requires SafePartition(kinds, width, height, xs)
    ensures SafePartition(kinds, width, height, SortLargestFirst(xs))
  {
    var r := SortLargestFirst(xs);
    SortKeepsDisjoint(xs);
    forall x ensures x in r <==> x in xs {
      assert x in multiset(r) <==> x in multiset(xs);
    }
    forall i | 0 <= i < |r| ensures IsSafeCluster(kinds, width, height, r[i]) {
      assert r[i] in xs;
    }
    forall q | IsZero(kinds, width, height, q) ensures exists i :: 0 <= i < |r| && q in r[i] {
      var k :| 0 <= k < |xs| && q in xs[k];
      assert xs[k] in r;
    }
  }

  // ---------------------------------------------------------------------
  // The border of a cluster

  ghost predicate TouchesSafe(safe: seq<Pos>, q: Pos) {
    exists s :: s in safe && Adjacent8(s, q)
  }

  /** The distinct in-bounds cells with a bomb nearby that touch the cluster:
      all of them, and nothing else. */
  ghost predicate IsBorderOf(kinds: map<Pos, int>, width: int, height: int, safe: seq<Pos>, border: seq<Pos>) {
    && Distinct(border)
    && (forall q :: q in border ==>
          InBounds(q, width, height) && q in kinds && KindIsBombNearby(kinds[q]) && TouchesSafe(safe, q))
    && (forall q :: InBounds(q, width, height) && q in kinds && KindIsBombNearby(kinds[q]) && TouchesSafe(safe, q) ==>
          q in border)
  }

  /** On a counted board a cell next to a zero cell is never a bomb: so the
      border of a cluster holds numbered cells only, none of them in the
      cluster itself. */
  lemma BorderIsNumbered(kinds: map<Pos, int>, width: int, height: int, safe: seq<Pos>, border: seq<Pos>)
    requires Counted(kinds, width, height)
    requires forall s :: s in safe ==> IsZero(kinds, width, height, s)
    requires IsBorderOf(kinds, width, height, safe, border)
    ensures forall q :: q in border ==> CELL_MINE_1 <= kinds[q] <= CELL_MINE_8 && q !in safe
  {
    forall q | q in border ensures CELL_MINE_1 <= kinds[q] <= CELL_MINE_8 && q !in safe {
      var s :| s in safe && Adjacent8(s, q);
      assert BombCount(kinds, width, height, s) == 0;
      ZeroCountNoAdjacentBomb(kinds, width, height, s, q);
    }
  }

  function SafeLists(cs: seq<Cluster>): (gs: seq<seq<Pos>>)
    ensures |gs| == |cs| && forall i :: 0 <= i < |cs| ==> gs[i] == cs[i].safePositions
  {
    seq(|cs|, i requires 0 <= i < |cs| => cs[i].safePositions)
  }

  /** The cluster index of a built board: a partition of the zero cells into
      components, largest first, each with its exact border. */
  ghost predicate ClustersValid(kinds: map<Pos, int>, width: int, height: int, cs: seq<Cluster>) {
    && SafePartition(kinds, width, height, SafeLists(cs))
    && SortedLargestFirst(SafeLists(cs))
    && (forall i :: 0 <= i < |cs| ==> IsBorderOf(kinds, width, height, cs[i].safePositions, cs[i].positionsBombNearby))
  }

  /** Marking clusters revealed does not disturb the index. */
  lemma ClustersValidIgnoresFlags(kinds: map<Pos, int>, width: int, height: int, cs: seq<Cluster>, ds: seq<Cluster>)
    requires ClustersValid(kinds, width, height, cs)
    requires |cs| == |ds|
    requires forall i :: 0 <= i < |cs| ==>
      ds[i].safePositions == cs[i].safePositions && ds[i].positionsBombNearby == cs[i].positionsBombNearby
    ensures ClustersValid(kinds, width, height, ds)
  {
    assert SafeLists(cs) == SafeLists(ds);
  }
}
