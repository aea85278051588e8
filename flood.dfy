/** The steps of the board's reveal cascade, on the cells as a map value: the
    state the flood fill keeps, the opening of a popped cell and the visit of
    its eight neighbours, and the loop that drives them, Fill. */
module Flood {
  import opened Cells
  import opened Grid
  import opened Cascade

  /** What the flood fill from s keeps true of its own state: the visited map
      marks exactly the cells pushed so far, each reachable from s through zero
      cells (the recorded path shows how), every pushed cell is still on the
      work-list or done, the work-list holds no cell twice and no cell already
      done, and the cells are those CascadeAt describes. */
  ghost predicate Tracked(c0: map<Pos, Cell>, kinds: map<Pos, int>, width: int, height: int, s: Pos,
                          cells: map<Pos, Cell>, flags: map<Pos, bool>, queue: seq<Pos>,
                          visited: set<Pos>, done: set<Pos>, touched: set<Pos>, paths: map<Pos, seq<Pos>>) {
    && (forall q :: q in flags <==> InBounds(q, width, height))
    && (forall q :: q in flags ==> (flags[q] <==> q in visited))
    && s in visited && done <= visited
    && (forall q :: q in queue ==> q in visited)
    && (forall q :: q in visited ==> q in done || q in queue)
    && (forall i, j :: 0 <= i < j < |queue| ==> queue[i] != queue[j])
    && (forall q :: q in queue ==> q !in done)
    && (forall q :: q in visited ==> q in c0 && q in paths && PathFromTo(kinds, width, height, Eight, paths[q], s, q))
    && (forall q :: q in touched ==> q in c0)
    && (forall q :: q in cells <==> q in c0)
    && (forall q :: q in cells ==> cells[q] == CascadeAt(c0, s, visited, done, touched, q))
  }

  /** Every zero neighbour of a done cell has been visited. */
  ghost predicate Closed(kinds: map<Pos, int>, width: int, height: int, done: set<Pos>, visited: set<Pos>) {
    forall d, r :: d in done && Adjacent8(d, r) && IsZero(kinds, width, height, r) ==> r in visited
  }

  /** The loop invariant of the flood fill: the state is tracked, s is popped
      first, the done cells are closed, and the touched cells are exactly the
      neighbours of the done ones. */
  ghost predicate CascadeInv(c0: map<Pos, Cell>, kinds: map<Pos, int>, width: int, height: int, s: Pos,
                             cells: map<Pos, Cell>, flags: map<Pos, bool>, queue: seq<Pos>,
                             visited: set<Pos>, done: set<Pos>, touched: set<Pos>, paths: map<Pos, seq<Pos>>) {
    && Tracked(c0, kinds, width, height, s, cells, flags, queue, visited, done, touched, paths)
    && (s !in done ==> done == {} && queue == [s])
    && Closed(kinds, width, height, done, visited)
    && (forall q :: q in touched <==> q in c0 && NearRegion(done, q))
  }

  lemma NearRegionAdd(done: set<Pos>, p: Pos, q: Pos)
    ensures NearRegion(done + {p}, q) <==> NearRegion(done, q) || Adjacent8(p, q)
  {
    if NearRegion(done + {p}, q) && !Adjacent8(p, q) {
      var r :| r in done + {p} && Adjacent8(r, q);
    }
  }

  /** The state the flood fill from the zero cell s starts in. */
  lemma CascadeStart(c0: map<Pos, Cell>, kinds: map<Pos, int>, width: int, height: int, s: Pos, flags: map<Pos, bool>)
    requires Consistent(c0, kinds, width, height) && IsZero(kinds, width, height, s)
    requires forall q :: q in flags <==> InBounds(q, width, height)
    requires forall q :: q in flags ==> (flags[q] <==> q == s)
    ensures CascadeInv(c0, kinds, width, height, s, c0, flags, [s], {s}, {}, {}, map[s := [s]])
  {
    assert PathFromTo(kinds, width, height, Eight, [s], s, s);
  }

  /** When the work-list runs dry the visited cells are exactly the zero
      region of s, and the cells are those the cascade specification gives. */
  lemma CascadeDone(c0: map<Pos, Cell>, kinds: map<Pos, int>, width: int, height: int, s: Pos,
                    cells: map<Pos, Cell>, flags: map<Pos, bool>,
                    visited: set<Pos>, done: set<Pos>, touched: set<Pos>, paths: map<Pos, seq<Pos>>)
    requires Consistent(c0, kinds, width, height)
    requires CascadeInv(c0, kinds, width, height, s, cells, flags, [], visited, done, touched, paths)
    ensures cells == AfterCascade(c0, Region(kinds, width, height, Eight, s))
  {
    var region := Region(kinds, width, height, Eight, s);
    assert visited == done;
    assert ZeroClosed(kinds, width, height, Eight, visited);
    forall q | q in region ensures q in visited {
      ClosedHoldsReachable(kinds, width, height, Eight, visited, s, q);
    }
    forall q | q in visited ensures q in region {
      assert PathFromTo(kinds, width, height, Eight, paths[q], s, q);
    }
    assert visited == region;
    var after := AfterCascade(c0, region);
    forall q | q in cells ensures cells[q] == after[q] {
    }
  }

  /** Opening the popped cell p. */
  method CascadeOpen(ghost c0: map<Pos, Cell>, ghost s: Pos, cells: map<Pos, Cell>, p: Pos,
                     ghost visited: set<Pos>, ghost done: set<Pos>, ghost touched: set<Pos>)
    returns (cells': map<Pos, Cell>)
    requires p in visited && p in cells
    requires forall q :: q in cells <==> q in c0
    requires forall q :: q in cells ==> cells[q] == CascadeAt(c0, s, visited, done, touched, q)
    ensures forall q :: q in cells' <==> q in c0
    ensures forall q :: q in cells' ==> cells'[q] == CascadeAt(c0, s, visited, done + {p}, touched, q)
  {
    cells' := cells[p := cells[p].Open(true)];
    OpenIdempotent(c0[p], true, true);
    forall q | q in cells'
      ensures cells'[q] == CascadeAt(c0, s, visited, done + {p}, touched, q)
    {
      if q != p {
        assert cells'[q] == cells[q];
      }
    }
  }

  /** One neighbour n of the popped cell p: an unvisited cell that is neither
      numbered nor a bomb is pushed, marked and opened; any other plainly
      unopened non-bomb cell is opened. */
  method CascadeTouch(ghost c0: map<Pos, Cell>, ghost kinds: map<Pos, int>, width: int, height: int, ghost s: Pos,
                      cells: map<Pos, Cell>, p: Pos, n: Pos, flags: map<Pos, bool>, queue: seq<Pos>,
                      ghost visited: set<Pos>, ghost done: set<Pos>, ghost touched: set<Pos>, ghost paths: map<Pos, seq<Pos>>)
    returns (cells': map<Pos, Cell>, flags': map<Pos, bool>, queue': seq<Pos>,
             ghost visited': set<Pos>, ghost touched': set<Pos>, ghost paths': map<Pos, seq<Pos>>)
    requires Consistent(c0, kinds, width, height)
    requires Tracked(c0, kinds, width, height, s, cells, flags, queue, visited, done, touched, paths)
    requires p in visited && s in done && Adjacent8(p, n)
    ensures Tracked(c0, kinds, width, height, s, cells', flags', queue', visited', done, touched', paths')
    ensures flags'.Keys == flags.Keys
    ensures touched' == if InBounds(n, width, height) then touched + {n} else touched
    ensures visited <= visited' && (visited' == visited ==> queue' == queue)
    ensures (visited' == visited && queue' == queue)
         || (n !in visited && visited' == visited + {n} && queue' == queue + [n])
    ensures IsZero(kinds, width, height, n) ==> n in visited'
  {
    cells', flags', queue', visited', touched', paths' := cells, flags, queue, visited, touched, paths;
    if InBounds(n, width, height) {
      var cell2 := cells[n];
      var flag := flags[n];
      if !flag && !cell2.IsBombNearby() {
        assert IsZero(kinds, width, height, n);
        queue' := queue + [n];
        cells' := cells[n := cell2.Open(true)];
        flags' := flags[n := true];
        paths' := paths[n := paths[p] + [n]];
        visited' := visited + {n};
        PathExtend(kinds, width, height, Eight, paths[p], s, p, n);
        CascadeAtPush(c0, s, visited, done, touched, n);
      } else {
        if cell2.status == Unopened && !cell2.IsBomb() {
          cells' := cells[n := cell2.Open(true)];
        }
        assert cells'[n] == BorderOpen(cell2);
        CascadeAtBorder(c0, s, visited, done, touched, n);
      }
      touched' := touched + {n};
      forall q | q in cells'
        ensures cells'[q] == CascadeAt(c0, s, visited', done, touched', q)
      {
        if q != n {
          assert cells'[q] == cells[q];
        }
      }
    }
  }

  /** The state of the visit of p's neighbours after the first j offsets: the
      state is tracked, only new cells were visited (and the work-list only grew
      when one was), the cells done before p are still closed, every zero cell
      among the first j neighbours is visited, and the touched cells are the
      neighbours of the cells done before p and those first j neighbours. */
  ghost predicate Visiting(c0: map<Pos, Cell>, kinds: map<Pos, int>, width: int, height: int, s: Pos, p: Pos, j: nat,
                           cells: map<Pos, Cell>, flags: map<Pos, bool>, queue: seq<Pos>,
                           visited: set<Pos>, done: set<Pos>, done0: set<Pos>, touched: set<Pos>, paths: map<Pos, seq<Pos>>,
                           keys0: set<Pos>, visited0: set<Pos>, queue0: seq<Pos>) {
    && j <= 8
    && Tracked(c0, kinds, width, height, s, cells, flags, queue, visited, done, touched, paths)
    && flags.Keys == keys0
    && visited0 <= visited && (visited == visited0 ==> queue == queue0)
    && Closed(kinds, width, height, done0, visited)
    && (forall r :: r in Reached(p, j) && IsZero(kinds, width, height, r) ==> r in visited)
    && (forall q :: q in touched <==> q in c0 && (NearRegion(done0, q) || q in Reached(p, j)))
  }

  /** The visit of the neighbour at offset j. */
  method CascadeVisit(ghost c0: map<Pos, Cell>, ghost kinds: map<Pos, int>, width: int, height: int, ghost s: Pos, p: Pos, j: nat,
                      cells: map<Pos, Cell>, flags: map<Pos, bool>, queue: seq<Pos>,
                      ghost visited: set<Pos>, ghost done: set<Pos>, ghost done0: set<Pos>,
                      ghost touched: set<Pos>, ghost paths: map<Pos, seq<Pos>>,
                      ghost keys0: set<Pos>, ghost visited0: set<Pos>, ghost queue0: seq<Pos>)
    returns (cells': map<Pos, Cell>, flags': map<Pos, bool>, queue': seq<Pos>,
             ghost visited': set<Pos>, ghost touched': set<Pos>, ghost paths': map<Pos, seq<Pos>>)
    requires Consistent(c0, kinds, width, height)
    requires p in visited && s in done && j < 8
    requires Visiting(c0, kinds, width, height, s, p, j, cells, flags, queue, visited, done, done0, touched, paths, keys0, visited0, queue0)
    ensures Visiting(c0, kinds, width, height, s, p, j + 1, cells', flags', queue', visited', done, done0, touched', paths', keys0, visited0, queue0)
  {
    var n := Add(p, NearbyVectors()[j]);
    ReachedStep(p, j + 1);
    VectorsAreNeighbours(Eight, p, j);
    cells', flags', queue', visited', touched', paths' :=
      CascadeTouch(c0, kinds, width, height, s, cells, p, n, flags, queue, visited, done, touched, paths);
    VisitedNext(c0, kinds, width, height, s, p, j, visited, touched, done0, visited', touched', visited0, queue0, queue, queue');
  }

  /** The neighbour facts of Visiting after the neighbour at offset j was
      touched. */
  lemma VisitedNext(c0: map<Pos, Cell>, kinds: map<Pos, int>, width: int, height: int, s: Pos, p: Pos, j: nat,
                    visited: set<Pos>, touched: set<Pos>, done0: set<Pos>, visited': set<Pos>, touched': set<Pos>,
                    visited0: set<Pos>, queue0: seq<Pos>, queue: seq<Pos>, queue': seq<Pos>)
    requires Consistent(c0, kinds, width, height) && j < 8
    requires visited0 <= visited && (visited == visited0 ==> queue == queue0)
    requires Closed(kinds, width, height, done0, visited)
    requires forall r :: r in Reached(p, j) && IsZero(kinds, width, height, r) ==> r in visited
    requires forall q :: q in touched <==> q in c0 && (NearRegion(done0, q) || q in Reached(p, j))
    requires var n := Add(p, NearbyVectors()[j]);
      && (touched' == if InBounds(n, width, height) then touched + {n} else touched)
      && visited <= visited' && (visited' == visited ==> queue' == queue)
      && (IsZero(kinds, width, height, n) ==> n in visited')
    ensures visited0 <= visited' && (visited' == visited0 ==> queue' == queue0)
    ensures Closed(kinds, width, height, done0, visited')
    ensures forall r :: r in Reached(p, j + 1) && IsZero(kinds, width, height, r) ==> r in visited'
    ensures forall q :: q in touched' <==> q in c0 && (NearRegion(done0, q) || q in Reached(p, j + 1))
  {
    ReachedStep(p, j + 1);
  }

  /** Taking the last cell p off the work-list and opening it: the visit of
      its neighbours can start. */
  method CascadePop(ghost c0: map<Pos, Cell>, ghost kinds: map<Pos, int>, width: int, height: int, ghost s: Pos,
                    cells: map<Pos, Cell>, flags: map<Pos, bool>, queue: seq<Pos>,
                    ghost visited: set<Pos>, ghost done: set<Pos>, ghost touched: set<Pos>, ghost paths: map<Pos, seq<Pos>>)
    returns (cells': map<Pos, Cell>, p: Pos, queue': seq<Pos>, ghost done': set<Pos>)
    requires CascadeInv(c0, kinds, width, height, s, cells, flags, queue, visited, done, touched, paths)
    requires |queue| > 0
    ensures p == queue[|queue| - 1] && queue' == queue[..|queue| - 1] && done' == done + {p}
    ensures p in visited && s in done'
    ensures Visiting(c0, kinds, width, height, s, p, 0, cells', flags, queue', visited, done', done, touched, paths, flags.Keys, visited, queue')
  {
    p := queue[|queue| - 1];
    queue' := queue[..|queue| - 1];
    assert queue == queue' + [p];
    cells' := CascadeOpen(c0, s, cells, p, visited, done, touched);
    done' := done + {p};
    assert Reached(p, 0) == {};
  }

  /** The eight neighbours of the popped cell p, in the order of the offsets. */
  method CascadeNeighbours(ghost c0: map<Pos, Cell>, ghost kinds: map<Pos, int>, width: int, height: int, ghost s: Pos,
                           cells: map<Pos, Cell>, p: Pos, flags: map<Pos, bool>, queue: seq<Pos>,
                           ghost visited: set<Pos>, ghost done: set<Pos>, ghost done0: set<Pos>,
                           ghost touched: set<Pos>, ghost paths: map<Pos, seq<Pos>>)
    returns (cells': map<Pos, Cell>, flags': map<Pos, bool>, queue': seq<Pos>,
             ghost visited': set<Pos>, ghost touched': set<Pos>, ghost paths': map<Pos, seq<Pos>>)
    requires Consistent(c0, kinds, width, height)
    requires p in visited && s in done
    requires Visiting(c0, kinds, width, height, s, p, 0, cells, flags, queue, visited, done, done0, touched, paths, flags.Keys, visited, queue)
    ensures Visiting(c0, kinds, width, height, s, p, 8, cells', flags', queue', visited', done, done0, touched', paths', flags.Keys, visited, queue)
  {
    cells', flags', queue', visited', touched', paths' := cells, flags, queue, visited, touched, paths;
    for j := 0 to 8
      invariant Visiting(c0, kinds, width, height, s, p, j, cells', flags', queue', visited', done, done0, touched', paths', flags.Keys, visited, queue)
    {
      cells', flags', queue', visited', touched', paths' :=
        CascadeVisit(c0, kinds, width, height, s, p, j, cells', flags', queue', visited', done, done0, touched', paths', flags.Keys, visited, queue);
    }
  }

  /** After the eight neighbours of p, p counts as done; either a new cell
      was visited or the work-list is the one left after the pop. */
  lemma NeighboursDone(c0: map<Pos, Cell>, kinds: map<Pos, int>, width: int, height: int, s: Pos, p: Pos,
                       cells: map<Pos, Cell>, flags: map<Pos, bool>, queue: seq<Pos>,
                       visited: set<Pos>, done: set<Pos>, done0: set<Pos>, touched: set<Pos>, paths: map<Pos, seq<Pos>>,
                       keys0: set<Pos>, visited0: set<Pos>, queue0: seq<Pos>)
    requires Consistent(c0, kinds, width, height)
    requires s in done && done == done0 + {p}
    requires (forall q :: q in keys0 <==> InBounds(q, width, height)) && visited0 <= keys0
    requires Visiting(c0, kinds, width, height, s, p, 8, cells, flags, queue, visited, done, done0, touched, paths, keys0, visited0, queue0)
    ensures CascadeInv(c0, kinds, width, height, s, cells, flags, queue, visited, done, touched, paths)
    ensures visited <= keys0
    ensures |keys0 - visited| < |keys0 - visited0| || (|keys0 - visited| == |keys0 - visited0| && queue == queue0)
  {
    ReachedAll(p);
    forall q ensures q in touched <==> q in c0 && NearRegion(done, q) {
      NearRegionAdd(done0, p, q);
    }
    if visited != visited0 {
      ProperSubsetSmaller(keys0 - visited, keys0 - visited0);
    }
  }

  /** One round of the flood fill: pop a cell, open it, visit its neighbours.
      Either a new cell was visited or the work-list got shorter. */
  method CascadeStep(ghost c0: map<Pos, Cell>, ghost kinds: map<Pos, int>, width: int, height: int, ghost s: Pos,
                     cells: map<Pos, Cell>, flags: map<Pos, bool>, queue: seq<Pos>,
                     ghost visited: set<Pos>, ghost done: set<Pos>, ghost touched: set<Pos>, ghost paths: map<Pos, seq<Pos>>)
    returns (cells': map<Pos, Cell>, flags': map<Pos, bool>, queue': seq<Pos>,
             ghost visited': set<Pos>, ghost done': set<Pos>, ghost touched': set<Pos>, ghost paths': map<Pos, seq<Pos>>)
    requires Consistent(c0, kinds, width, height)
    requires CascadeInv(c0, kinds, width, height, s, cells, flags, queue, visited, done, touched, paths)
    requires |queue| > 0
    ensures CascadeInv(c0, kinds, width, height, s, cells', flags', queue', visited', done', touched', paths')
    ensures flags'.Keys == flags.Keys && visited' <= flags.Keys
    ensures |flags.Keys - visited'| < |flags.Keys - visited|
         || (|flags.Keys - visited'| == |flags.Keys - visited| && |queue'| < |queue|)
  {
    var p, rest;
    cells', p, rest, done' := CascadePop(c0, kinds, width, height, s, cells, flags, queue, visited, done, touched, paths);
    cells', flags', queue', visited', touched', paths' :=
      CascadeNeighbours(c0, kinds, width, height, s, cells', p, flags, rest, visited, done', done, touched, paths);
    NeighboursDone(c0, kinds, width, height, s, p, cells', flags', queue', visited', done', done, touched', paths', flags.Keys, visited, rest);
  }

  /** The flood fill from the zero cell s: a work-list taken from its end and
      a visited map; each popped cell is opened and its eight neighbours are
      examined. It opens exactly the zero region of s and its border. */
  method Fill(cells: map<Pos, Cell>, ghost kinds: map<Pos, int>, width: nat, height: nat, s: Pos)
    returns (cells': map<Pos, Cell>)
    requires Consistent(cells, kinds, width, height)
    requires IsZero(kinds, width, height, s)
    ensures cells' == AfterCascade(cells, Region(kinds, width, height, Eight, s))
  {
    cells' := cells;
    var flags := MakeMap(width, height, false);
    var queue := [s];
    flags := flags[s := true];
    ghost var visited: set<Pos> := {s};
    ghost var done: set<Pos> := {};
    ghost var touched: set<Pos> := {};
    ghost var paths: map<Pos, seq<Pos>> := map[s := [s]];
    CascadeStart(cells, kinds, width, height, s, flags);

    while |queue| > 0
      invariant CascadeInv(cells, kinds, width, height, s, cells', flags, queue, visited, done, touched, paths)
      decreases |flags.Keys - visited|, |queue|
    {
      cells', flags, queue, visited, done, touched, paths :=
        CascadeStep(cells, kinds, width, height, s, cells', flags, queue, visited, done, touched, paths);
    }
    CascadeDone(cells, kinds, width, height, s, cells', flags, visited, done, touched, paths);
  }
}
