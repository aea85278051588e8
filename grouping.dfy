/** The grouping of a board's zero cells into safe clusters: a row-major
    scan that starts a group at every zero cell not yet in one, and a
    depth-first fill through the four side neighbours that labels the group;
    then the border of each group. Everything works on the cells as a map
    value. */
module Grouping {
  import opened Cells
  import opened Grid
  import opened Cascade
  import opened Clusters

  /** The label of a cell that belongs to no group yet. */
  const NO_GROUP := 0

  /** Labelled zero cells only lead, by a side step, to labelled zero cells:
      every group labelled so far is closed. */
  ghost predicate LabelsClosed(kinds: map<Pos, int>, width: int, height: int, groups: map<Pos, int>) {
    forall q, r :: q in groups && groups[q] != NO_GROUP && Adjacent(Four, q, r) && IsZero(kinds, width, height, r)
      ==> r in groups && groups[r] != NO_GROUP
  }

  /** Every zero side neighbour of a done cell carries a label. */
  ghost predicate SideClosed(kinds: map<Pos, int>, width: int, height: int, done: set<Pos>, groups: map<Pos, int>) {
    forall d, r :: d in done && Adjacent(Four, d, r) && IsZero(kinds, width, height, r)
      ==> r in groups && groups[r] != NO_GROUP
  }

  /** What the fill of group g from s keeps true of its own state: the
      positions list holds each labelled cell once, starting with s; exactly
      those cells have changed label, from none to g; each is reachable from s
      through side-adjacent zero cells (the recorded path shows how); and each
      is still on the work-list or done. */
  ghost predicate Labelling(kinds: map<Pos, int>, width: int, height: int, s: Pos, g: int,
                            groups0: map<Pos, int>, groups: map<Pos, int>, positions: seq<Pos>, queue: seq<Pos>,
                            visited: set<Pos>, done: set<Pos>, paths: map<Pos, seq<Pos>>) {
    && (forall q :: q in groups <==> InBounds(q, width, height))
    && (forall q :: q in groups0 <==> q in groups)
    && (forall q :: q in visited <==> q in positions)
    && |positions| > 0 && positions[0] == s && Distinct(positions)
    && (forall q :: q in groups ==> groups[q] == if q in visited then g else groups0[q])
    && (forall q :: q in visited ==> q in groups0 && groups0[q] == NO_GROUP)
    && (forall q :: q in visited ==> q in paths && PathFromTo(kinds, width, height, Four, paths[q], s, q))
    && (forall q :: q in queue ==> q in visited)
    && (forall q :: q in visited ==> q in done || q in queue)
    && done <= visited
  }

  /** The state the fill of group g from the unlabelled zero cell s starts in. */
  lemma LabellingStart(kinds: map<Pos, int>, width: int, height: int, s: Pos, g: int, groups0: map<Pos, int>)
    requires forall q :: q in groups0 <==> InBounds(q, width, height)
    requires IsZero(kinds, width, height, s) && groups0[s] == NO_GROUP
    ensures Labelling(kinds, width, height, s, g, groups0, groups0[s := g], [s], [s], {s}, {}, map[s := [s]])
    ensures SideClosed(kinds, width, height, {}, groups0[s := g])
  {
    assert PathFromTo(kinds, width, height, Four, [s], s, s);
  }

  /** One side neighbour n of the popped cell p: a zero cell without a label
      is labelled g and pushed. */
  method GroupTouch(cells: map<Pos, Cell>, ghost kinds: map<Pos, int>, width: int, height: int, ghost s: Pos, g: int,
                    ghost groups0: map<Pos, int>, groups: map<Pos, int>, positions: seq<Pos>, queue: seq<Pos>,
                    ghost visited: set<Pos>, ghost done: set<Pos>, ghost paths: map<Pos, seq<Pos>>, p: Pos, n: Pos)
    returns (groups': map<Pos, int>, positions': seq<Pos>, queue': seq<Pos>,
             ghost visited': set<Pos>, ghost paths': map<Pos, seq<Pos>>)
    requires Consistent(cells, kinds, width, height) && g != NO_GROUP
    requires Labelling(kinds, width, height, s, g, groups0, groups, positions, queue, visited, done, paths)
    requires p in visited && Adjacent(Four, p, n)
    ensures Labelling(kinds, width, height, s, g, groups0, groups', positions', queue', visited', done, paths')
    ensures visited <= visited' && (visited' == visited ==> queue' == queue)
    ensures IsZero(kinds, width, height, n) ==> groups'[n] != NO_GROUP
  {
    groups', positions', queue', visited', paths' := groups, positions, queue, visited, paths;
    if InBounds(n, width, height) {
      var cell2 := cells[n];
      var group2 := groups[n];
      if cell2.kind == CELL_MINE_0 && group2 == NO_GROUP {
        positions' := positions + [n];
        queue' := queue + [n];
        groups' := groups[n := g];
        visited' := visited + {n};
        paths' := paths[n := paths[p] + [n]];
        PathExtend(kinds, width, height, Four, paths[p], s, p, n);
      }
    }
  }

  /** The visit of p's side neighbours after the first j offsets: the state is
      labelled, only new cells were labelled (and the work-list only grew when
      one was), the cells done before p are still closed, and every zero cell
      among the first j side neighbours of p carries a label. */
  ghost predicate GroupVisiting(kinds: map<Pos, int>, width: int, height: int, s: Pos, g: int, p: Pos, j: nat,
                                groups0: map<Pos, int>, groups: map<Pos, int>, positions: seq<Pos>, queue: seq<Pos>,
                                visited: set<Pos>, done: set<Pos>, done0: set<Pos>, paths: map<Pos, seq<Pos>>,
                                visited0: set<Pos>, queue0: seq<Pos>) {
    && j <= 4
    && Labelling(kinds, width, height, s, g, groups0, groups, positions, queue, visited, done, paths)
    && visited0 <= visited && (visited == visited0 ==> queue == queue0)
    && SideClosed(kinds, width, height, done0, groups)
    && (forall k :: 0 <= k < j && IsZero(kinds, width, height, Add(p, SideVectors()[k])) ==> groups[Add(p, SideVectors()[k])] != NO_GROUP)
  }

  /** Labels only ever grow during a fill. */
  lemma LabelsGrow(kinds: map<Pos, int>, width: int, height: int, s: Pos, g: int,
                   groups0: map<Pos, int>, groups: map<Pos, int>, positions: seq<Pos>, queue: seq<Pos>,
                   visited: set<Pos>, done: set<Pos>, paths: map<Pos, seq<Pos>>,
                   groups': map<Pos, int>, positions': seq<Pos>, queue': seq<Pos>,
                   visited': set<Pos>, paths': map<Pos, seq<Pos>>)
    requires g != NO_GROUP
    requires Labelling(kinds, width, height, s, g, groups0, groups, positions, queue, visited, done, paths)
    requires Labelling(kinds, width, height, s, g, groups0, groups', positions', queue', visited', done, paths')
    requires visited <= visited'
    ensures forall q :: q in groups && groups[q] != NO_GROUP ==> groups'[q] != NO_GROUP
  {
  }

  /** The visit of the side neighbour at offset j. */
  method GroupVisit(cells: map<Pos, Cell>, ghost kinds: map<Pos, int>, width: int, height: int, ghost s: Pos, g: int, p: Pos, j: nat,
                    ghost groups0: map<Pos, int>, groups: map<Pos, int>, positions: seq<Pos>, queue: seq<Pos>,
                    ghost visited: set<Pos>, ghost done: set<Pos>, ghost done0: set<Pos>, ghost paths: map<Pos, seq<Pos>>,
                    ghost visited0: set<Pos>, ghost queue0: seq<Pos>)
    returns (groups': map<Pos, int>, positions': seq<Pos>, queue': seq<Pos>,
             ghost visited': set<Pos>, ghost paths': map<Pos, seq<Pos>>)
    requires Consistent(cells, kinds, width, height) && g != NO_GROUP
    requires p in visited && j < 4
    requires GroupVisiting(kinds, width, height, s, g, p, j, groups0, groups, positions, queue, visited, done, done0, paths, visited0, queue0)
    ensures GroupVisiting(kinds, width, height, s, g, p, j + 1, groups0, groups', positions', queue', visited', done, done0, paths', visited0, queue0)
  {
    var n := Add(p, SideVectors()[j]);
    VectorsAreNeighbours(Four, p, j);
    groups', positions', queue', visited', paths' :=
      GroupTouch(cells, kinds, width, height, s, g, groups0, groups, positions, queue, visited, done, paths, p, n);
    LabelsGrow(kinds, width, height, s, g, groups0, groups, positions, queue, visited, done, paths,
               groups', positions', queue', visited', paths');
  }

  /** The four side neighbours of the popped cell p, in the order of the offsets. */
  method GroupNeighbours(cells: map<Pos, Cell>, ghost kinds: map<Pos, int>, width: int, height: int, ghost s: Pos, g: int, p: Pos,
                         ghost groups0: map<Pos, int>, groups: map<Pos, int>, positions: seq<Pos>, queue: seq<Pos>,
                         ghost visited: set<Pos>, ghost done: set<Pos>, ghost done0: set<Pos>, ghost paths: map<Pos, seq<Pos>>)
    returns (groups': map<Pos, int>, positions': seq<Pos>, queue': seq<Pos>,
             ghost visited': set<Pos>, ghost paths': map<Pos, seq<Pos>>)
    requires Consistent(cells, kinds, width, height) && g != NO_GROUP && p in visited
    requires GroupVisiting(kinds, width, height, s, g, p, 0, groups0, groups, positions, queue, visited, done, done0, paths, visited, queue)
    ensures GroupVisiting(kinds, width, height, s, g, p, 4, groups0, groups', positions', queue', visited', done, done0, paths', visited, queue)
  {
    groups', positions', queue', visited', paths' := groups, positions, queue, visited, paths;
    for j := 0 to 4
      invariant GroupVisiting(kinds, width, height, s, g, p, j, groups0, groups', positions', queue', visited', done, done0, paths', visited, queue)
    {
      groups', positions', queue', visited', paths' :=
        GroupVisit(cells, kinds, width, height, s, g, p, j, groups0, groups', positions', queue', visited', done, done0, paths', visited, queue);
    }
  }

  /** After the four side neighbours of p, p counts as done; either a new
      cell was labelled or the work-list is the one left after the pop. */
  lemma GroupNeighboursDone(kinds: map<Pos, int>, width: int, height: int, s: Pos, g: int, p: Pos,
                            groups0: map<Pos, int>, groups: map<Pos, int>, positions: seq<Pos>, queue: seq<Pos>,
                            visited: set<Pos>, done: set<Pos>, done0: set<Pos>, paths: map<Pos, seq<Pos>>,
                            visited0: set<Pos>, queue0: seq<Pos>)
    requires done == done0 + {p}
    requires visited0 <= groups.Keys
    requires GroupVisiting(kinds, width, height, s, g, p, 4, groups0, groups, positions, queue, visited, done, done0, paths, visited0, queue0)
    ensures SideClosed(kinds, width, height, done, groups)
    ensures visited <= groups.Keys
    ensures |groups.Keys - visited| < |groups.Keys - visited0| || (|groups.Keys - visited| == |groups.Keys - visited0| && queue == queue0)
  {
    forall d, r | d in done && Adjacent(Four, d, r) && IsZero(kinds, width, height, r)
      ensures r in groups && groups[r] != NO_GROUP
    {
      if d == p {
        var k := OffsetIndex(Four, p, r);
      }
    }
    if visited != visited0 {
      var x :| x in visited && x !in visited0;
      assert x in groups.Keys - visited0;
      ProperSubsetSmaller(groups.Keys - visited, groups.Keys - visited0);
    }
  }

  /** One round of the fill: pop the last cell of the work-list and visit its
      side neighbours. Either a new cell was labelled or the work-list got
      shorter. */
  method GroupStep(cells: map<Pos, Cell>, ghost kinds: map<Pos, int>, width: int, height: int, ghost s: Pos, g: int,
                   ghost groups0: map<Pos, int>, groups: map<Pos, int>, positions: seq<Pos>, queue: seq<Pos>,
                   ghost visited: set<Pos>, ghost done: set<Pos>, ghost paths: map<Pos, seq<Pos>>)
    returns (groups': map<Pos, int>, positions': seq<Pos>, queue': seq<Pos>,
             ghost visited': set<Pos>, ghost done': set<Pos>, ghost paths': map<Pos, seq<Pos>>)
    requires Consistent(cells, kinds, width, height) && g != NO_GROUP
    requires Labelling(kinds, width, height, s, g, groups0, groups, positions, queue, visited, done, paths)
    requires SideClosed(kinds, width, height, done, groups)
    requires |queue| > 0
    ensures Labelling(kinds, width, height, s, g, groups0, groups', positions', queue', visited', done', paths')
    ensures SideClosed(kinds, width, height, done', groups')
    ensures groups'.Keys == groups.Keys && visited' <= groups.Keys
    ensures |groups.Keys - visited'| < |groups.Keys - visited|
         || (|groups.Keys - visited'| == |groups.Keys - visited| && |queue'| < |queue|)
  {
    var p := queue[|queue| - 1];
    var rest := queue[..|queue| - 1];
    assert queue == rest + [p];
    done' := done + {p};
    groups', positions', queue', visited', paths' :=
      GroupNeighbours(cells, kinds, width, height, s, g, p, groups0, groups, positions, rest, visited, done', done, paths);
    GroupNeighboursDone(kinds, width, height, s, g, p, groups0, groups', positions', queue', visited', done', done, paths', visited, rest);
  }

  /** When the work-list runs dry the labelled positions form one whole side
      component of the zero cells, and the labels stay closed. */
  lemma GroupDone(kinds: map<Pos, int>, width: int, height: int, s: Pos, g: int,
                  groups0: map<Pos, int>, groups: map<Pos, int>, positions: seq<Pos>,
                  visited: set<Pos>, done: set<Pos>, paths: map<Pos, seq<Pos>>)
    requires g != NO_GROUP && LabelsClosed(kinds, width, height, groups0)
    requires Labelling(kinds, width, height, s, g, groups0, groups, positions, [], visited, done, paths)
    requires SideClosed(kinds, width, height, done, groups)
    ensures IsSafeCluster(kinds, width, height, positions)
    ensures LabelsClosed(kinds, width, height, groups)
  {
    assert visited == done;
    forall q | q in positions
      ensures IsZero(kinds, width, height, q) && Reachable(kinds, width, height, Four, positions[0], q)
    {
      assert PathFromTo(kinds, width, height, Four, paths[q], s, q);
      assert IsZero(kinds, width, height, paths[q][|paths[q]| - 1]);
    }
    forall q, r | q in positions && Adjacent(Four, q, r) && IsZero(kinds, width, height, r)
      ensures r in positions
    {
      AdjacentSymmetric(Four, q, r);
    }
  }

  /** The fill of group g from the zero cell s, which has no label yet: a
      work-list taken from its end; each popped cell labels and pushes its
      unlabelled zero side neighbours. It labels exactly the side component of
      s and lists it, s first. */
  method FillGroup(cells: map<Pos, Cell>, ghost kinds: map<Pos, int>, width: nat, height: nat, groups: map<Pos, int>, g: int, s: Pos)
    returns (groups': map<Pos, int>, positions: seq<Pos>)
    requires Consistent(cells, kinds, width, height)
    requires forall q :: q in groups <==> InBounds(q, width, height)
    requires LabelsClosed(kinds, width, height, groups)
    requires IsZero(kinds, width, height, s) && groups[s] == NO_GROUP && g != NO_GROUP
    ensures IsSafeCluster(kinds, width, height, positions) && positions[0] == s
    ensures forall q :: q in groups' <==> q in groups
    ensures forall q :: q in groups ==> groups'[q] == if q in positions then g else groups[q]
    ensures forall q :: q in positions ==> groups[q] == NO_GROUP
    ensures LabelsClosed(kinds, width, height, groups')
  {
    positions := [s];
    var queue := [s];
    groups' := groups[s := g];
    ghost var visited: set<Pos> := {s};
    ghost var done: set<Pos> := {};
    ghost var paths: map<Pos, seq<Pos>> := map[s := [s]];
    LabellingStart(kinds, width, height, s, g, groups);

    while |queue| > 0
      invariant Labelling(kinds, width, height, s, g, groups, groups', positions, queue, visited, done, paths)
      invariant SideClosed(kinds, width, height, done, groups')
      invariant groups'.Keys == groups.Keys
      decreases |groups.Keys - visited|, |queue|
    {
      groups', positions, queue, visited, done, paths :=
        GroupStep(cells, kinds, width, height, s, g, groups, groups', positions, queue, visited, done, paths);
    }
    GroupDone(kinds, width, height, s, g, groups, groups', positions, visited, done, paths);
  }

  /** The scan state once every position before (col, row) has been read:
      group i + 1 is listed at index i and labels exactly the cells of that
      list; each list is one whole side component of the zero cells; every
      zero cell read so far has a label; and the labels are closed. */
  ghost predicate Scanned(kinds: map<Pos, int>, width: int, height: int, col: int, row: int,
                          groups: map<Pos, int>, lists: seq<seq<Pos>>) {
    && (forall q :: q in groups <==> InBounds(q, width, height))
    && (forall q :: q in groups ==> 0 <= groups[q] <= |lists|)
    && (forall i, q :: 0 <= i < |lists| ==> (q in lists[i] <==> q in groups && groups[q] == i + 1))
    && (forall i :: 0 <= i < |lists| ==> IsSafeCluster(kinds, width, height, lists[i]))
    && (forall q :: IsZero(kinds, width, height, q) && Before(q, col, row) ==> groups[q] != NO_GROUP)
    && LabelsClosed(kinds, width, height, groups)
  }

  /** Reading the cell at p = (col, row): a zero cell without a label starts
      the next group. */
  method ScanCell(cells: map<Pos, Cell>, ghost kinds: map<Pos, int>, width: nat, height: nat, col: nat, row: nat,
                  groups: map<Pos, int>, lists: seq<seq<Pos>>)
    returns (groups': map<Pos, int>, lists': seq<seq<Pos>>)
    requires Consistent(cells, kinds, width, height) && col < width && row < height
    requires Scanned(kinds, width, height, col, row, groups, lists)
    ensures Scanned(kinds, width, height, col + 1, row, groups', lists')
  {
    groups', lists' := groups, lists;
    var p := (col, row);
    var cell0 := cells[p];
    var group0 := groups[p];
    if cell0.kind == CELL_MINE_0 && group0 == NO_GROUP {
      var positions;
      groups', positions := FillGroup(cells, kinds, width, height, groups, |lists| + 1, p);
      lists' := lists + [positions];
      forall i, q | 0 <= i < |lists'|
        ensures q in lists'[i] <==> q in groups' && groups'[q] == i + 1
      {
        if i < |lists| {
          assert lists'[i] == lists[i];
        }
      }
    }
  }

  /** The zero cells grouped into side-connected components, read row by
      row: group i + 1 is the list at index i, in the order its cells were
      labelled. Together the lists split the zero cells of the board. */
  method GroupZeroCells(cells: map<Pos, Cell>, ghost kinds: map<Pos, int>, width: nat, height: nat)
    returns (lists: seq<seq<Pos>>)
    requires Consistent(cells, kinds, width, height)
    ensures SafePartition(kinds, width, height, lists)
  {
    var groups := MakeMap(width, height, NO_GROUP);
    lists := [];
    for row := 0 to height
      invariant Scanned(kinds, width, height, 0, row, groups, lists)
    {
      for col := 0 to width
        invariant Scanned(kinds, width, height, col, row, groups, lists)
      {
        groups, lists := ScanCell(cells, kinds, width, height, col, row, groups, lists);
      }
    }
    forall i, j | 0 <= i < j < |lists| ensures Disjoint(lists[i], lists[j]) {
    }
    forall q | IsZero(kinds, width, height, q) ensures exists i :: 0 <= i < |lists| && q in lists[i] {
      assert q in lists[groups[q] - 1];
    }
  }

  /** The border search after the cells `seen`: the flags mark exactly them,
      and the border lists, once each, exactly those of them with a bomb
      nearby. */
  ghost predicate Bordering(kinds: map<Pos, int>, width: int, height: int,
                            flags: map<Pos, bool>, border: seq<Pos>, seen: set<Pos>) {
    && (forall q :: q in flags <==> InBounds(q, width, height))
    && (forall q :: q in flags ==> (flags[q] <==> q in seen))
    && Distinct(border)
    && (forall q :: q in border <==> q in seen && q in kinds && KindIsBombNearby(kinds[q]))
  }

  lemma TouchesSafeStep(safe: seq<Pos>, i: nat, q: Pos)
    requires i < |safe|
    ensures TouchesSafe(safe[..i + 1], q) <==> TouchesSafe(safe[..i], q) || Adjacent8(safe[i], q)
  {
    assert safe[..i + 1] == safe[..i] + [safe[i]];
    if TouchesSafe(safe[..i + 1], q) && !Adjacent8(safe[i], q) {
      var s :| s in safe[..i + 1] && Adjacent8(s, q);
      assert s in safe[..i];
    }
  }

  /** The eight neighbours of the safe cell p: each in-bounds one not seen
      before is marked, and listed when it has a bomb nearby. */
  method BorderNeighbours(cells: map<Pos, Cell>, ghost kinds: map<Pos, int>, width: nat, height: nat, p: Pos,
                          flags: map<Pos, bool>, border: seq<Pos>, ghost seen: set<Pos>)
    returns (flags': map<Pos, bool>, border': seq<Pos>, ghost seen': set<Pos>)
    requires Consistent(cells, kinds, width, height)
    requires Bordering(kinds, width, height, flags, border, seen)
    ensures Bordering(kinds, width, height, flags', border', seen')
    ensures forall q :: q in seen' <==> q in seen || (InBounds(q, width, height) && Adjacent8(p, q))
  {
    flags', border', seen' := flags, border, seen;
    var vectors := NearbyVectors();
    for j := 0 to 8
      invariant Bordering(kinds, width, height, flags', border', seen')
      invariant forall q :: q in seen' <==> q in seen || (InBounds(q, width, height) && q in Reached(p, j))
    {
      var q := Add(p, vectors[j]);
      ReachedStep(p, j + 1);
      if InBounds(q, width, height) {
        if !flags'[q] {
          flags' := flags'[q := true];
          seen' := seen' + {q};
          if cells[q].IsBombNearby() {
            border' := border' + [q];
          }
        }
      }
    }
    ReachedAll(p);
  }

  /** The cells around a group that have a bomb nearby: every in-bounds
      neighbour of a safe cell is looked at once, and kept when its type is a
      count or a bomb. */
  method ComputePositionsBombNearby(cells: map<Pos, Cell>, ghost kinds: map<Pos, int>, width: nat, height: nat,
                                    safe: seq<Pos>)
    returns (border: seq<Pos>)
    requires Consistent(cells, kinds, width, height)
    requires forall q :: q in safe ==> IsZero(kinds, width, height, q)
    ensures IsBorderOf(kinds, width, height, safe, border)
  {
    var flags := MakeMap(width, height, false);
    border := [];
    ghost var seen: set<Pos> := {};
    for i := 0 to |safe|
      invariant Bordering(kinds, width, height, flags, border, seen)
      invariant forall q :: q in seen <==> InBounds(q, width, height) && TouchesSafe(safe[..i], q)
    {
      forall q ensures TouchesSafe(safe[..i + 1], q) <==> TouchesSafe(safe[..i], q) || Adjacent8(safe[i], q) {
        TouchesSafeStep(safe, i, q);
      }
      flags, border, seen := BorderNeighbours(cells, kinds, width, height, safe[i], flags, border, seen);
    }
    assert safe[..|safe|] == safe;
  }

  /** The safe clusters of the board: the side components of the zero cells,
      largest first, each with its border, none revealed yet. */
  method ComputeSafeClusters(cells: map<Pos, Cell>, ghost kinds: map<Pos, int>, width: nat, height: nat)
    returns (clusters: seq<Cluster>)
    requires Consistent(cells, kinds, width, height)
    ensures ClustersValid(kinds, width, height, clusters)
    ensures forall i :: 0 <= i < |clusters| ==> !clusters[i].isRevealed
  {
    var lists := GroupZeroCells(cells, kinds, width, height);
    SortKeepsPartition(kinds, width, height, lists);
    var sorted := SortLargestFirst(lists);
    clusters := [];
    for i := 0 to |sorted|
      invariant |clusters| == i
      invariant forall k :: 0 <= k < i ==>
        && clusters[k].safePositions == sorted[k]
        && IsBorderOf(kinds, width, height, clusters[k].safePositions, clusters[k].positionsBombNearby)
        && !clusters[k].isRevealed
    {
      assert IsSafeCluster(kinds, width, height, sorted[i]);
      var border := ComputePositionsBombNearby(cells, kinds, width, height, sorted[i]);
      clusters := clusters + [Cluster(sorted[i], border, false)];
    }
    assert SafeLists(clusters) == sorted;
  }
}
