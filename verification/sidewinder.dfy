/** `Sidewinder.on`: each row is cut into runs of cells joined eastwards;
    closing a run opens a passage north from one of its cells, chosen at
    random. The top row is one single run with no way north. */
module Sidewinder {
  import opened Wrappers
  import opened Arena
  import opened Cell
  import opened Tally
  import opened Choice
  import opened Snapshots
  import opened Sampling
  import opened Walks
  import opened Visits

  /** The generator's state between two cells: the snapshot history and the
      cells of the current run, in visiting order. */
  datatype Walker = Walker(progress: Run, run: seq<nat>)

  /** The run once cell i joins it: `run` is emptied at the start of each
      row, and the cell is pushed. */
  function RunAt(d: Dims, run: seq<nat>, i: nat): (r: seq<nat>)
    requires i < Area(d)
    ensures |r| > 0 && r[|r| - 1] == i
    ensures forall m {:trigger m in r} :: m in r ==> m in run || m == i
  {
    (if ColOf(d, i) == 0 then [] else run) + [i]
  }

  /** Whether cell i closes its run: always at the eastern boundary, and
      elsewhere, away from the northern boundary, when its coin comes up.
      The coin of cell i is only drawn in that last case. */
  predicate Closes(d: Dims, i: nat, coin: nat -> bool)
    requires i < Area(d)
  {
    East(d, i).None? || (North(d, i).Some? && coin(i))
  }

  /** The run member drawn at random when cell i closes the run; the run holds at
      least cell i, so a member is always found. */
  function Member(d: Dims, run: seq<nat>, i: nat, pick: nat -> nat): (m: nat)
    requires i < Area(d)
    ensures m in RunAt(d, run, i)
  {
    RandomFrom(RunAt(d, run, i), pick(i)).value
  }

  /** The visit of cell i, with the coin and the draw of that cell. A
      closing cell links a random member of the run to its northern
      neighbour, if it has one, and empties the run; any other cell links
      to its eastern neighbour. Every cell counts one step. */
  function Visit(w: Walker, i: nat, coin: nat -> bool, pick: nat -> nat): (r: Walker)
    requires Valid(w.progress.grid) && i < Size(w.progress.grid)
    requires forall m {:trigger m in w.run} :: m in w.run ==> m < i
    ensures Valid(r.progress.grid) && Shape(r.progress.grid) == Shape(w.progress.grid)
    ensures r.progress.grid.cellSize == w.progress.grid.cellSize
    ensures r.progress.counter == w.progress.counter + 1
    ensures forall m {:trigger m in r.run} :: m in r.run ==> m <= i
  {
    var g, d := w.progress.grid, Shape(w.progress.grid);
    if Closes(d, i, coin) then
      var m := Member(d, w.run, i, pick);
      var h := if North(d, m).Some? then Link(g, m, North(d, m).value, true) else g;
      Walker(Tick(w.progress, h), [])
    else
      Walker(Tick(w.progress, Link(g, i, East(d, i).value, true)), RunAt(d, w.run, i))
  }

  /** The row-by-row, cell-by-cell pass over the grid, from cell i on. Every
      cell counts one step; links are only added; every link is a passage
      between neighbours if it was so before; the top row becomes one
      corridor; when the run is a stretch of the current row, every later
      row gets a passage north; when it is also a corridor, every cell from
      its start on is joined to the row above; and on mutual links with
      nothing linked ahead, one new link is made per cell but the top-right
      one. */
  function Walk(w: Walker, i: nat, coin: nat -> bool, pick: nat -> nat): (r: Walker)
    requires Valid(w.progress.grid) && i <= Size(w.progress.grid)
    requires forall m {:trigger m in w.run} :: m in w.run ==> m < i
    ensures Valid(r.progress.grid) && Shape(r.progress.grid) == Shape(w.progress.grid)
    ensures r.progress.grid.cellSize == w.progress.grid.cellSize
    ensures r.progress.counter == w.progress.counter + (Size(w.progress.grid) - i)
    ensures Extends(w.progress, r.progress)
    ensures Keeps(w.progress.grid, r.progress.grid)
    ensures WellLinked(w.progress.grid) ==> WellLinked(r.progress.grid)
    ensures TopEastFrom(r.progress.grid, i)
    ensures Stretch(Shape(w.progress.grid), w.run, i) ==> OpensNorthFrom(r.progress.grid, i)
    ensures RunChained(w, i) ==> RisesFrom(r.progress.grid, i - |w.run|)
    ensures var g := w.progress.grid;
      RunFresh(w, i) ==> DegreeSum(r.progress.grid.links) + Owed(g, i) == DegreeSum(g.links) + 2 * (Size(g) - i)
    decreases Size(w.progress.grid) - i
  {
    if i == Size(w.progress.grid) then
      OwedAtEnd(w.progress.grid);
      w
    else
      var next := Visit(w, i, coin, pick);
      var r := Walk(next, i + 1, coin, pick);
      VisitExtends(w, i, coin, pick);
      ExtendsTrans(w.progress, next.progress, r.progress);
      VisitKeeps(w, i, coin, pick);
      KeepsTrans(w.progress.grid, next.progress.grid, r.progress.grid);
      VisitWellLinked(w, i, coin, pick);
      VisitTopEast(w, i, coin, pick);
      TopEastKept(next.progress.grid, r.progress.grid, i);
      TopEastFromStep(r.progress.grid, i);
      VisitStretch(w, i, coin, pick);
      VisitOpensNorth(w, i, coin, pick);
      OpensNorthKept(next.progress.grid, r.progress.grid, i);
      OpensNorthFromStep(r.progress.grid, i);
      RisesLift(w, i, coin, pick, r.progress.grid);
      CountLift(w, i, coin, pick, r.progress.grid);
      r
  }

  /** `Sidewinder.on(grid, states)` with coins `coin` and draws `pick`: every
      cell counts one step, and the history ends with the snapshot of the
      finished grid. */
  function On(g: Grid, states: seq<Snapshot>, coin: nat -> bool, pick: nat -> nat): (r: Run)
    requires Valid(g)
    ensures Valid(r.grid) && Shape(r.grid) == Shape(g) && r.grid.cellSize == g.cellSize
    ensures r.counter == Size(g)
    ensures Finished(r, states)
  {
    var start := Walker(Run(g, 0, states), []);
    var w := Walk(start, 0, coin, pick);
    assert Accounted(start.progress, states);
    ExtendsAccounted(start.progress, w.progress, states);
    FinishFinished(w.progress, states);
    Finish(w.progress)
  }

  // ---------------------------------------------------------------------------
  // The run

  /** The run before cell i is the stretch of cells of i's row just before
      i, in order. */
  ghost predicate Stretch(d: Dims, run: seq<nat>, i: nat) {
    && (forall k {:trigger run[k]} :: 0 <= k < |run| ==> run[k] + |run| == i + k)
    && (i < Area(d) ==> |run| <= ColOf(d, i))
  }

  /** Stepping back t cells from i, no further than the row's first cell,
      stays in i's row. */
  lemma SameRowBack(d: Dims, i: nat, j: nat)
    requires i < Area(d) && j <= i && i - j <= ColOf(d, i)
    ensures RowOf(d, j) == RowOf(d, i) && ColOf(d, j) == ColOf(d, i) - (i - j)
  {
    CoordOfIndex(d, i);
    DivModUnique(j, d.cols, RowOf(d, i), ColOf(d, i) - (i - j));
  }

  /** Every member of the run, once cell i has joined it, is a cell of i's
      row no later than i. */
  lemma RunInRow(d: Dims, run: seq<nat>, i: nat)
    requires i < Area(d) && Stretch(d, run, i)
    ensures forall m {:trigger m in RunAt(d, run, i)} :: m in RunAt(d, run, i) ==>
      m <= i && RowOf(d, m) == RowOf(d, i)
  {
    forall m | m in RunAt(d, run, i) ensures m <= i && RowOf(d, m) == RowOf(d, i) {
      if m != i {
        var k :| 0 <= k < |run| && run[k] == m;
        SameRowBack(d, i, m);
      }
    }
  }

  /** Where runs close: always at the eastern boundary, and in the top row
      nowhere else. */
  lemma ClosesWhere(d: Dims, i: nat, coin: nat -> bool)
    requires i < Area(d)
    ensures ColOf(d, i) == d.cols - 1 ==> Closes(d, i, coin)
    ensures RowOf(d, i) == 0 ==> (Closes(d, i, coin) <==> ColOf(d, i) == d.cols - 1)
  {
    NeighbourCoords(d, i);
  }

  /** A cell that does not close the run opens the wall to the next cell of
      its row and stays in the run. */
  lemma OpenStep(w: Walker, i: nat, coin: nat -> bool, pick: nat -> nat)
    requires Valid(w.progress.grid) && i < Size(w.progress.grid)
    requires forall m {:trigger m in w.run} :: m in w.run ==> m < i
    requires !Closes(Shape(w.progress.grid), i, coin)
    ensures var d := Shape(w.progress.grid);
      && ColOf(d, i) < d.cols - 1 && East(d, i) == Some(i + 1) && RowOf(d, i + 1) == RowOf(d, i)
      && Visit(w, i, coin, pick).progress.grid == Link(w.progress.grid, i, i + 1, true)
      && Visit(w, i, coin, pick).run == RunAt(d, w.run, i)
  {
    NeighbourCoords(Shape(w.progress.grid), i);
  }

  /** A cell that closes the run empties it; the member drawn is a cell of
      the same row. In the top row nothing is linked; below it exactly one
      link is added, from the member to its northern neighbour. */
  lemma CloseStep(w: Walker, i: nat, coin: nat -> bool, pick: nat -> nat)
    requires Valid(w.progress.grid) && i < Size(w.progress.grid)
    requires Stretch(Shape(w.progress.grid), w.run, i)
    requires Closes(Shape(w.progress.grid), i, coin)
    ensures var d, m := Shape(w.progress.grid), Member(Shape(w.progress.grid), w.run, i, pick);
      && m <= i && RowOf(d, m) == RowOf(d, i)
      && Visit(w, i, coin, pick).run == []
      && (RowOf(d, i) == 0 ==> Visit(w, i, coin, pick).progress.grid == w.progress.grid)
      && (RowOf(d, i) > 0 ==>
            && m >= d.cols && North(d, m) == Some(m - d.cols)
            && Visit(w, i, coin, pick).progress.grid == Link(w.progress.grid, m, m - d.cols, true))
  {
    var d, m := Shape(w.progress.grid), Member(Shape(w.progress.grid), w.run, i, pick);
    StretchBelow(d, w.run, i);
    RunInRow(d, w.run, i);
    NeighbourCoords(d, m);
  }

  /** A stretch lies before i. */
  lemma StretchBelow(d: Dims, run: seq<nat>, i: nat)
    requires Stretch(d, run, i)
    ensures forall m {:trigger m in run} :: m in run ==> m < i
  {
  }

  /** A visit keeps the run a stretch of the current row. */
  lemma VisitStretch(w: Walker, i: nat, coin: nat -> bool, pick: nat -> nat)
    requires Valid(w.progress.grid) && i < Size(w.progress.grid)
    requires forall m {:trigger m in w.run} :: m in w.run ==> m < i
    ensures var d := Shape(w.progress.grid);
      Stretch(d, w.run, i) ==> Stretch(d, Visit(w, i, coin, pick).run, i + 1)
  {
    var d := Shape(w.progress.grid);
    if Stretch(d, w.run, i) && !Closes(d, i, coin) {
      OpenStep(w, i, coin, pick);
      SizePositive(d, i);
      ModStep(i, d.cols);
      var run := RunAt(d, w.run, i);
      if ColOf(d, i) == 0 {
        assert run == [i];
      } else {
        assert run == w.run + [i];
        forall k | 0 <= k < |run| ensures run[k] + |run| == i + 1 + k {
          if k < |w.run| {
            assert run[k] == w.run[k];
          }
        }
      }
    }
  }

  // ---------------------------------------------------------------------------
  // Links

  /** In the top row, a cell other than the last is linked to the next one,
      at both ends. */
  ghost predicate TopEast(g: Grid, c: nat)
    requires Valid(g)
  {
    c < Size(g) && RowOf(Shape(g), c) == 0 && ColOf(Shape(g), c) < g.cols - 1 ==>
      c + 1 < Size(g) && c + 1 in g.links[c] && c in g.links[c + 1]
  }

  /** Some cell of the given row is linked to its northern neighbour. */
  ghost predicate RowOpensNorth(g: Grid, row: nat)
    requires Valid(g)
  {
    exists m: nat :: m < Size(g) && RowOf(Shape(g), m) == row && m >= g.cols && m - g.cols in g.links[m]
  }

  /** If e is the last cell of a row other than the top one, that row has a
      passage north. */
  ghost predicate OpensNorth(g: Grid, e: nat)
    requires Valid(g)
  {
    e < Size(g) && RowOf(Shape(g), e) > 0 && ColOf(Shape(g), e) == g.cols - 1 ==> RowOpensNorth(g, RowOf(Shape(g), e))
  }

  /** TopEast holds for every cell from c on. */
  ghost predicate TopEastFrom(g: Grid, c: nat)
    requires Valid(g)
  {
    forall x {:trigger TopEast(g, x)} :: c <= x < Size(g) ==> TopEast(g, x)
  }

  /** OpensNorth holds for every cell from c on. */
  ghost predicate OpensNorthFrom(g: Grid, c: nat)
    requires Valid(g)
  {
    forall x {:trigger OpensNorth(g, x)} :: c <= x < Size(g) ==> OpensNorth(g, x)
  }

  lemma TopEastFromStep(g: Grid, c: nat)
    requires Valid(g)
    ensures TopEast(g, c) && TopEastFrom(g, c + 1) ==> TopEastFrom(g, c)
  {
  }

  lemma OpensNorthFromStep(g: Grid, c: nat)
    requires Valid(g)
    ensures OpensNorth(g, c) && OpensNorthFrom(g, c + 1) ==> OpensNorthFrom(g, c)
  {
  }

  lemma TopEastKept(g: Grid, h: Grid, c: nat)
    requires Valid(g) && Valid(h) && Shape(g) == Shape(h) && Keeps(g, h) && TopEast(g, c)
    ensures TopEast(h, c)
  {
  }

  lemma OpensNorthKept(g: Grid, h: Grid, e: nat)
    requires Valid(g) && Valid(h) && Shape(g) == Shape(h) && Keeps(g, h)
    ensures OpensNorth(g, e) ==> OpensNorth(h, e)
  {
    if OpensNorth(g, e) && e < Size(g) && RowOf(Shape(g), e) > 0 && ColOf(Shape(g), e) == g.cols - 1 {
      var m: nat :| m < Size(g) && RowOf(Shape(g), m) == RowOf(Shape(g), e) && m >= g.cols && m - g.cols in g.links[m];
      assert RowOf(Shape(h), m) == RowOf(Shape(h), e);
      assert m - h.cols in h.links[m];
    }
  }

  lemma VisitKeeps(w: Walker, i: nat, coin: nat -> bool, pick: nat -> nat)
    requires Valid(w.progress.grid) && i < Size(w.progress.grid)
    requires forall m {:trigger m in w.run} :: m in w.run ==> m < i
    ensures Keeps(w.progress.grid, Visit(w, i, coin, pick).progress.grid)
  {
    var g, d := w.progress.grid, Shape(w.progress.grid);
    if Closes(d, i, coin) {
      var m := Member(d, w.run, i, pick);
      if North(d, m).Some? {
        LinkKeeps(g, m, North(d, m).value);
      }
    } else {
      LinkKeeps(g, i, East(d, i).value);
    }
  }

  lemma VisitWellLinked(w: Walker, i: nat, coin: nat -> bool, pick: nat -> nat)
    requires Valid(w.progress.grid) && i < Size(w.progress.grid)
    requires forall m {:trigger m in w.run} :: m in w.run ==> m < i
    ensures WellLinked(w.progress.grid) ==> WellLinked(Visit(w, i, coin, pick).progress.grid)
  {
    var g, d := w.progress.grid, Shape(w.progress.grid);
    if WellLinked(g) {
      if Closes(d, i, coin) {
        var m := Member(d, w.run, i, pick);
        if North(d, m).Some? {
          LinkKeepsWellLinked(g, m, North(d, m).value);
        }
      } else {
        LinkKeepsWellLinked(g, i, East(d, i).value);
      }
    }
  }

  lemma VisitTopEast(w: Walker, i: nat, coin: nat -> bool, pick: nat -> nat)
    requires Valid(w.progress.grid) && i < Size(w.progress.grid)
    requires forall m {:trigger m in w.run} :: m in w.run ==> m < i
    ensures TopEast(Visit(w, i, coin, pick).progress.grid, i)
  {
    var d := Shape(w.progress.grid);
    ClosesWhere(d, i, coin);
    if RowOf(d, i) == 0 && ColOf(d, i) < d.cols - 1 {
      OpenStep(w, i, coin, pick);
    }
  }

  lemma VisitOpensNorth(w: Walker, i: nat, coin: nat -> bool, pick: nat -> nat)
    requires Valid(w.progress.grid) && i < Size(w.progress.grid)
    requires forall m {:trigger m in w.run} :: m in w.run ==> m < i
    ensures Stretch(Shape(w.progress.grid), w.run, i) ==> OpensNorth(Visit(w, i, coin, pick).progress.grid, i)
  {
    var g, d := w.progress.grid, Shape(w.progress.grid);
    ClosesWhere(d, i, coin);
    if Stretch(d, w.run, i) && RowOf(d, i) > 0 && ColOf(d, i) == d.cols - 1 {
      CloseStep(w, i, coin, pick);
      var m := Member(d, w.run, i, pick);
      var h := Visit(w, i, coin, pick).progress.grid;
      assert m - d.cols in h.links[m];
    }
  }

  // ---------------------------------------------------------------------------
  // History

  lemma VisitExtends(w: Walker, i: nat, coin: nat -> bool, pick: nat -> nat)
    requires Valid(w.progress.grid) && i < Size(w.progress.grid)
    requires forall m {:trigger m in w.run} :: m in w.run ==> m < i
    ensures Extends(w.progress, Visit(w, i, coin, pick).progress)
  {
    var g, d := w.progress.grid, Shape(w.progress.grid);
    if Closes(d, i, coin) {
      var m := Member(d, w.run, i, pick);
      var h := if North(d, m).Some? then Link(g, m, North(d, m).value, true) else g;
      TickExtends(w.progress, h);
    } else {
      TickExtends(w.progress, Link(g, i, East(d, i).value, true));
    }
  }

  // ---------------------------------------------------------------------------
  // Trails through the runs

  /** Cell c and the next cell are linked to each other, as neighbours. */
  ghost predicate Joined(g: Grid, c: nat)
    requires Valid(g)
  {
    Move(g, c, c + 1) && Move(g, c + 1, c)
  }

  /** The cells lo..hi form one corridor: each is joined to the next. */
  ghost predicate Chain(g: Grid, lo: nat, hi: nat)
    requires Valid(g)
  {
    forall c {:trigger Joined(g, c)} :: lo <= c < hi ==> Joined(g, c)
  }

  lemma ChainKept(g: Grid, h: Grid, lo: nat, hi: nat)
    requires Valid(g) && Valid(h) && Shape(g) == Shape(h) && Keeps(g, h) && Chain(g, lo, hi)
    ensures Chain(h, lo, hi)
  {
    forall c | lo <= c < hi ensures Joined(h, c) {
      assert Joined(g, c);
    }
  }

  /** Along a corridor, each cell reaches its first cell and back. */
  lemma {:induction false} ChainToStart(g: Grid, lo: nat, hi: nat, y: nat)
    requires Valid(g) && hi < Size(g) && Chain(g, lo, hi) && lo <= y <= hi
    ensures Reachable(g, lo, y) && Reachable(g, y, lo)
    decreases y - lo
  {
    if y == lo {
      ReachSelf(g, lo);
    } else {
      assert Joined(g, y - 1);
      ChainToStart(g, lo, hi, y - 1);
      ReachThen(g, lo, y - 1, y);
      ReachAfter(g, y, y - 1, lo);
    }
  }

  /** Every two cells of a corridor are joined by a trail. */
  lemma ChainReach(g: Grid, lo: nat, hi: nat, x: nat, y: nat)
    requires Valid(g) && hi < Size(g) && Chain(g, lo, hi) && lo <= x <= hi && lo <= y <= hi
    ensures Reachable(g, x, y)
  {
    ChainToStart(g, lo, hi, x);
    ChainToStart(g, lo, hi, y);
    ReachTrans(g, x, lo, y);
  }

  /** Cell x, if below the top row, is joined both ways to a cell of the row
      above. */
  ghost predicate Rises(g: Grid, x: nat)
    requires Valid(g)
  {
    x < Size(g) && RowOf(Shape(g), x) > 0 ==>
      exists u: nat :: u < Size(g) && RowOf(Shape(g), u) + 1 == RowOf(Shape(g), x) && Reachable(g, x, u) && Reachable(g, u, x)
  }

  /** Rises holds for every cell from c on. */
  ghost predicate RisesFrom(g: Grid, c: nat)
    requires Valid(g)
  {
    forall x {:trigger Rises(g, x)} :: c <= x < Size(g) ==> Rises(g, x)
  }

  lemma RisesKept(g: Grid, h: Grid, x: nat)
    requires Valid(g) && Valid(h) && Shape(g) == Shape(h) && Keeps(g, h) && Rises(g, x)
    ensures Rises(h, x)
  {
    if x < Size(g) && RowOf(Shape(g), x) > 0 {
      var u: nat :| u < Size(g) && RowOf(Shape(g), u) + 1 == RowOf(Shape(g), x) && Reachable(g, x, u) && Reachable(g, u, x);
      ReachKept(g, h, x, u);
      ReachKept(g, h, u, x);
    }
  }

  /** Where a run closes below the top row, every cell of the corridor it
      forms reaches the drawn member, and through its new link the row
      above, and is reached back. */
  lemma CloseRises(w: Walker, i: nat, coin: nat -> bool, pick: nat -> nat, x: nat)
    requires Valid(w.progress.grid) && i < Size(w.progress.grid) && |w.run| <= i
    requires Stretch(Shape(w.progress.grid), w.run, i) && Chain(w.progress.grid, i - |w.run|, i)
    requires Closes(Shape(w.progress.grid), i, coin)
    requires i - |w.run| <= x <= i
    ensures Rises(Visit(w, i, coin, pick).progress.grid, x)
  {
    var g, d := w.progress.grid, Shape(w.progress.grid);
    var lo := i - |w.run|;
    var h := Visit(w, i, coin, pick).progress.grid;
    CloseStep(w, i, coin, pick);
    SameRowBack(d, i, x);
    if RowOf(d, i) > 0 {
      var m := Member(d, w.run, i, pick);
      var u := m - d.cols;
      assert lo <= m by {
        if m != i {
          var k :| 0 <= k < |w.run| && w.run[k] == m;
        }
      }
      LinkKeeps(g, m, u);
      ChainKept(g, h, lo, i);
      NeighbourSymmetry(d, m, u);
      NeighbourCoords(d, m);
      assert Move(h, m, u) && Move(h, u, m);
      ChainReach(h, lo, i, x, m);
      ReachThen(h, x, m, u);
      ChainReach(h, lo, i, m, x);
      ReachAfter(h, u, m, x);
    }
  }

  /** A cell that does not close the run joins the corridor to the next
      cell. */
  lemma OpenChains(w: Walker, i: nat, coin: nat -> bool, pick: nat -> nat)
    requires Valid(w.progress.grid) && i < Size(w.progress.grid) && |w.run| <= i
    requires Stretch(Shape(w.progress.grid), w.run, i) && Chain(w.progress.grid, i - |w.run|, i)
    requires !Closes(Shape(w.progress.grid), i, coin)
    ensures var next := Visit(w, i, coin, pick);
      && i + 1 < Size(w.progress.grid) && |next.run| == |w.run| + 1
      && Chain(next.progress.grid, i - |w.run|, i + 1)
  {
    var g, d := w.progress.grid, Shape(w.progress.grid);
    var h := Visit(w, i, coin, pick).progress.grid;
    OpenStep(w, i, coin, pick);
    LinkKeeps(g, i, i + 1);
    ChainKept(g, h, i - |w.run|, i);
    NeighbourSymmetry(d, i, i + 1);
    assert Joined(h, i);
  }

  /** One visit under the conditions of WalkRises: they hold again from the
      next cell, and either the run goes on from the same start, or it was
      closed and each of its cells rises. */
  lemma RisesStep(w: Walker, i: nat, coin: nat -> bool, pick: nat -> nat)
    requires Valid(w.progress.grid) && i < Size(w.progress.grid) && |w.run| <= i
    requires Stretch(Shape(w.progress.grid), w.run, i) && Chain(w.progress.grid, i - |w.run|, i)
    ensures var g, next := w.progress.grid, Visit(w, i, coin, pick);
      var h := next.progress.grid;
      && |next.run| <= i + 1 && Stretch(Shape(g), next.run, i + 1)
      && Chain(h, i + 1 - |next.run|, i + 1)
      && (i + 1 == Size(g) ==> next.run == [])
      && (i + 1 - |next.run| == i - |w.run| ||
          (next.run == [] && forall x :: i - |w.run| <= x <= i ==> Rises(h, x)))
  {
    var d := Shape(w.progress.grid);
    VisitStretch(w, i, coin, pick);
    if Closes(d, i, coin) {
      CloseStep(w, i, coin, pick);
      forall x | i - |w.run| <= x <= i ensures Rises(Visit(w, i, coin, pick).progress.grid, x) {
        CloseRises(w, i, coin, pick, x);
      }
    } else {
      OpenChains(w, i, coin, pick);
    }
  }

  /** The run so far is a corridor stretching up to cell i, emptied once
      the pass is over. */
  ghost predicate RunChained(w: Walker, i: nat) {
    && Valid(w.progress.grid) && |w.run| <= i
    && Stretch(Shape(w.progress.grid), w.run, i) && Chain(w.progress.grid, i - |w.run|, i)
    && (i == Size(w.progress.grid) ==> w.run == [])
  }

  /** If the pass from the next cell makes every cell from the next run's
      start rise, the pass from cell i makes every cell from this run's start
      rise. */
  lemma RisesLift(w: Walker, i: nat, coin: nat -> bool, pick: nat -> nat, r: Grid)
    requires Valid(w.progress.grid) && i < Size(w.progress.grid)
    requires forall m {:trigger m in w.run} :: m in w.run ==> m < i
    requires var h := Visit(w, i, coin, pick).progress.grid; Valid(r) && Shape(r) == Shape(h) && Keeps(h, r)
    requires var next := Visit(w, i, coin, pick); RunChained(next, i + 1) ==> RisesFrom(r, i + 1 - |next.run|)
    ensures RunChained(w, i) ==> RisesFrom(r, i - |w.run|)
  {
    if RunChained(w, i) {
      var next := Visit(w, i, coin, pick);
      var lo := i - |w.run|;
      RisesStep(w, i, coin, pick);
      assert RunChained(next, i + 1);
      if i + 1 - |next.run| != lo {
        forall x | lo <= x <= i ensures Rises(r, x) {
          RisesKept(next.progress.grid, r, x);
        }
        RisesJoin(r, lo, i);
      }
    }
  }

  lemma RisesJoin(g: Grid, lo: nat, i: nat)
    requires Valid(g) && RisesFrom(g, i + 1)
    requires forall x :: lo <= x <= i ==> Rises(g, x)
    ensures RisesFrom(g, lo)
  {
  }

  /** Every cell is joined both ways to the top-left cell: up the rows it
      rises through, then along the top corridor. */
  lemma {:induction false} ReachOrigin(r: Grid, x: nat)
    requires Valid(r) && x < Size(r) && 0 < r.cols && RisesFrom(r, 0) && Chain(r, 0, r.cols - 1)
    ensures Reachable(r, x, 0) && Reachable(r, 0, x)
    decreases RowOf(Shape(r), x)
  {
    var d := Shape(r);
    CoordOfIndex(d, x);
    if RowOf(d, x) == 0 {
      ChainReach(r, 0, r.cols - 1, x, 0);
      ChainReach(r, 0, r.cols - 1, 0, x);
    } else {
      assert Rises(r, x);
      var u: nat :| u < Size(r) && RowOf(d, u) + 1 == RowOf(d, x) && Reachable(r, x, u) && Reachable(r, u, x);
      ReachOrigin(r, u);
      ReachTrans(r, x, u, 0);
      ReachTrans(r, 0, u, x);
    }
  }

  // ---------------------------------------------------------------------------
  // Counting links

  /** No cell after c has a link yet. */
  ghost predicate UntouchedAfter(g: Grid, c: nat)
    requires Valid(g)
  {
    forall x :: c < x < Size(g) ==> g.links[x] == {}
  }

  /** No cell from lo on is linked to its northern neighbour. */
  ghost predicate NoNorthFrom(g: Grid, lo: nat)
    requires Valid(g)
  {
    forall x :: lo <= x < Size(g) && x >= g.cols ==> x - g.cols !in g.links[x]
  }

  /** Twice the links still owed to the top-right cell, the one cell whose
      visit links nothing: 2 until the pass reaches it. */
  function Owed(g: Grid, i: nat): (n: nat)
    ensures n == 0 || n == 2
  {
    if i < g.cols && 0 < g.rows then 2 else 0
  }

  lemma LinkUntouchedAfter(g: Grid, a: nat, b: nat, c: nat)
    requires Valid(g) && a < Size(g) && b < Size(g) && a <= c && b <= c && UntouchedAfter(g, c)
    ensures UntouchedAfter(Link(g, a, b, true), c)
  {
    var h := Link(g, a, b, true);
    forall x | c < x < Size(g) ensures h.links[x] == {} {
      assert forall y :: y !in h.links[x] by {
        forall y ensures y !in h.links[x] {
          assert y !in g.links[x];
        }
      }
    }
  }

  lemma UntouchedAfterNext(g: Grid, c: nat)
    requires Valid(g) && UntouchedAfter(g, c)
    ensures UntouchedAfter(g, c + 1) && NoNorthFrom(g, c + 1)
  {
  }

  /** Linking cell i to the next cell of its row adds no northern link. */
  lemma LinkEastNoNorth(g: Grid, i: nat, lo: nat)
    requires Valid(g) && i + 1 < Size(g) && 2 <= g.cols && NoNorthFrom(g, lo)
    ensures NoNorthFrom(Link(g, i, i + 1, true), lo)
  {
    var h := Link(g, i, i + 1, true);
    forall x | lo <= x < Size(g) && x >= g.cols ensures x - g.cols !in h.links[x] {
      assert x - g.cols !in g.links[x];
    }
  }

  /** Past the last cell nothing is owed. */
  lemma OwedAtEnd(g: Grid)
    ensures Owed(g, Size(g)) == 0
  {
    if 0 < g.rows {
      assert Size(g) == g.cols + Mul(g.rows - 1, g.cols);
    }
  }

  /** A closing visit below the top row adds one new link, from the drawn
      member to its northern neighbour; in the top row it adds none. */
  lemma CloseCount(w: Walker, i: nat, coin: nat -> bool, pick: nat -> nat)
    requires Valid(w.progress.grid) && i < Size(w.progress.grid) && |w.run| <= i
    requires Stretch(Shape(w.progress.grid), w.run, i) && Closes(Shape(w.progress.grid), i, coin)
    requires var g := w.progress.grid; Symmetric(g) && UntouchedAfter(g, i) && NoNorthFrom(g, i - |w.run|)
    ensures Visit(w, i, coin, pick).run == []
    ensures var g, h := w.progress.grid, Visit(w, i, coin, pick).progress.grid;
      && Symmetric(h) && UntouchedAfter(h, i + 1) && NoNorthFrom(h, i + 1)
      && DegreeSum(h.links) + Owed(g, i) == DegreeSum(g.links) + 2 + Owed(g, i + 1)
  {
    var g, d := w.progress.grid, Shape(w.progress.grid);
    var h := Visit(w, i, coin, pick).progress.grid;
    CloseStep(w, i, coin, pick);
    ClosesWhere(d, i, coin);
    CoordOfIndex(d, i);
    if RowOf(d, i) > 0 {
      var m := Member(d, w.run, i, pick);
      var u := m - d.cols;
      assert i - |w.run| <= m by {
        if m != i {
          var k :| 0 <= k < |w.run| && w.run[k] == m;
        }
      }
      assert h == Link(g, m, u, true);
      assert u !in g.links[m] && m !in g.links[u];
      FreshLinkAddsTwo(g, m, u);
      LinkKeepsSymmetry(g, m, u);
      LinkUntouchedAfter(g, m, u, i);
      UntouchedAfterNext(h, i);
      TopRowIff(d, i);
    } else {
      UntouchedAfterNext(g, i);
    }
  }

  /** The top row holds exactly the cells before `cols`. */
  lemma TopRowIff(d: Dims, i: nat)
    requires i < Area(d)
    ensures RowOf(d, i) == 0 <==> i < d.cols
  {
    CoordOfIndex(d, i);
    if RowOf(d, i) > 0 {
      MulMono(1, RowOf(d, i), d.cols);
    }
  }

  /** Linking cell i to the next cell of its row, with nothing linked after
      i and the links mutual, adds one fresh link and keeps those
      conditions from the next cell on. */
  lemma EastLinkCount(g: Grid, i: nat, lo: nat)
    requires Valid(g) && i + 1 < Size(g) && 2 <= g.cols
    requires Symmetric(g) && UntouchedAfter(g, i) && NoNorthFrom(g, lo)
    ensures var h := Link(g, i, i + 1, true);
      && Symmetric(h) && UntouchedAfter(h, i + 1) && NoNorthFrom(h, lo)
      && DegreeSum(h.links) == DegreeSum(g.links) + 2
  {
    assert i !in g.links[i + 1] && i + 1 !in g.links[i];
    FreshLinkAddsTwo(g, i, i + 1);
    LinkKeepsSymmetry(g, i, i + 1);
    LinkUntouchedAfter(g, i, i + 1, i + 1);
    LinkEastNoNorth(g, i, lo);
  }

  /** A visit that does not close the run adds one new link, to the next
      cell. */
  lemma OpenCount(w: Walker, i: nat, coin: nat -> bool, pick: nat -> nat)
    requires Valid(w.progress.grid) && i < Size(w.progress.grid) && |w.run| <= i
    requires Stretch(Shape(w.progress.grid), w.run, i) && !Closes(Shape(w.progress.grid), i, coin)
    requires var g := w.progress.grid; Symmetric(g) && UntouchedAfter(g, i) && NoNorthFrom(g, i - |w.run|)
    ensures var g, next := w.progress.grid, Visit(w, i, coin, pick);
      && |next.run| == |w.run| + 1
      && Symmetric(next.progress.grid) && UntouchedAfter(next.progress.grid, i + 1)
      && NoNorthFrom(next.progress.grid, i - |w.run|)
      && DegreeSum(next.progress.grid.links) + Owed(g, i) == DegreeSum(g.links) + 2 + Owed(g, i + 1)
  {
    var g, d := w.progress.grid, Shape(w.progress.grid);
    OpenStep(w, i, coin, pick);
    ClosesWhere(d, i, coin);
    TopRowIff(d, i);
    EastLinkCount(g, i, i - |w.run|);
    assert Owed(g, i) == Owed(g, i + 1);
  }

  /** One visit under the conditions of WalkCount: they hold again from the
      next cell, and one link is added unless the visit is that of the
      top-right cell. */
  lemma CountStep(w: Walker, i: nat, coin: nat -> bool, pick: nat -> nat)
    requires Valid(w.progress.grid) && i < Size(w.progress.grid) && |w.run| <= i
    requires Stretch(Shape(w.progress.grid), w.run, i)
    requires var g := w.progress.grid; Symmetric(g) && UntouchedAfter(g, i) && NoNorthFrom(g, i - |w.run|)
    ensures var g, next := w.progress.grid, Visit(w, i, coin, pick);
      var h := next.progress.grid;
      && Shape(h) == Shape(g) && h.rows == g.rows && h.cols == g.cols
      && |next.run| <= i + 1 && Stretch(Shape(g), next.run, i + 1)
      && Symmetric(h) && UntouchedAfter(h, i + 1) && NoNorthFrom(h, i + 1 - |next.run|)
      && DegreeSum(h.links) + Owed(g, i) == DegreeSum(g.links) + 2 + Owed(g, i + 1)
  {
    VisitStretch(w, i, coin, pick);
    if Closes(Shape(w.progress.grid), i, coin) {
      CloseCount(w, i, coin, pick);
    } else {
      OpenCount(w, i, coin, pick);
    }
  }

  /** The links are mutual, nothing is linked after cell i, and no cell from
      the run's start on is linked north. */
  ghost predicate RunFresh(w: Walker, i: nat) {
    && Valid(w.progress.grid) && |w.run| <= i && Stretch(Shape(w.progress.grid), w.run, i)
    && Symmetric(w.progress.grid) && UntouchedAfter(w.progress.grid, i) && NoNorthFrom(w.progress.grid, i - |w.run|)
  }

  /** If the pass from the next cell adds one link per cell but the
      top-right one, so does the pass from cell i. */
  lemma CountLift(w: Walker, i: nat, coin: nat -> bool, pick: nat -> nat, r: Grid)
    requires Valid(w.progress.grid) && i < Size(w.progress.grid)
    requires forall m {:trigger m in w.run} :: m in w.run ==> m < i
    requires var h := Visit(w, i, coin, pick).progress.grid;
      RunFresh(Visit(w, i, coin, pick), i + 1) ==>
        DegreeSum(r.links) + Owed(h, i + 1) == DegreeSum(h.links) + 2 * (Size(h) - (i + 1))
    ensures var g := w.progress.grid;
      RunFresh(w, i) ==> DegreeSum(r.links) + Owed(g, i) == DegreeSum(g.links) + 2 * (Size(g) - i)
  {
    if RunFresh(w, i) {
      CountStep(w, i, coin, pick);
      assert RunFresh(Visit(w, i, coin, pick), i + 1);
    }
  }

  // ---------------------------------------------------------------------------
  // The finished maze

  /** The top row, once each of its cells but the last is linked to the next
      at both ends, is one corridor. */
  lemma TopChain(r: Grid)
    requires Valid(r) && 0 < Size(r)
    requires forall c :: 0 <= c < Size(r) && RowOf(Shape(r), c) == 0 && ColOf(Shape(r), c) < r.cols - 1 ==>
      c + 1 < Size(r) && c + 1 in r.links[c] && c in r.links[c + 1]
    ensures 0 < r.cols && Chain(r, 0, r.cols - 1)
  {
    var d := Shape(r);
    SizePositive(d, 0);
    forall c | 0 <= c < r.cols - 1 ensures Joined(r, c) {
      IndexOfCoord(d, 0, c);
      assert c < Size(r) && RowOf(d, c) == 0 && ColOf(d, c) == c;
      assert East(d, c) == Some(c + 1);
      NeighbourSymmetry(d, c, c + 1);
    }
  }

  /** Sidewinder on any grid: the top row becomes one corridor, every other
      row has a passage north, no link is lost, and if every link was a
      passage between neighbours present at both ends, that stays so. Every
      two cells end up joined by a trail, and on an untouched grid exactly
      rows*cols - 1 links are made: the maze is a spanning tree. */
  lemma SidewinderMaze(g: Grid, states: seq<Snapshot>, coin: nat -> bool, pick: nat -> nat)
    requires Valid(g)
    ensures var r, d := On(g, states, coin, pick).grid, Shape(g);
      && Keeps(g, r)
      && (WellLinked(g) ==> WellLinked(r))
      && (forall c :: 0 <= c < Size(g) && RowOf(d, c) == 0 && ColOf(d, c) < d.cols - 1 ==>
            c + 1 < Size(g) && c + 1 in r.links[c] && c in r.links[c + 1])
      && (forall row: nat {:trigger RowOpensNorth(r, row)} :: 0 < row < d.rows && d.cols > 0 ==> RowOpensNorth(r, row))
      && (0 < Size(g) ==> Spans(r))
      && (Untouched(g) && 0 < Size(g) ==> DegreeSum(r.links) == 2 * (Size(g) - 1))
  {
    var d := Shape(g);
    var start := Walker(Run(g, 0, states), []);
    var r := On(g, states, coin, pick).grid;
    assert Stretch(d, start.run, 0);
    assert TopEastFrom(r, 0) && OpensNorthFrom(r, 0);
    forall c | 0 <= c < Size(g) && RowOf(d, c) == 0 && ColOf(d, c) < d.cols - 1
      ensures c + 1 < Size(g) && c + 1 in r.links[c] && c in r.links[c + 1]
    {
      assert TopEast(r, c);
    }
    forall row: nat | 0 < row < d.rows && d.cols > 0 ensures RowOpensNorth(r, row) {
      IndexOfCoord(d, row, d.cols - 1);
      assert OpensNorth(r, row * d.cols + d.cols - 1);
    }
    if 0 < Size(g) {
      assert RunChained(start, 0);
      TopChain(r);
      forall x | 0 <= x < Size(r) ensures Reachable(r, x, 0) && Reachable(r, 0, x) {
        ReachOrigin(r, x);
      }
      HubSpans(r, 0);
      if Untouched(g) {
        assert RunFresh(start, 0);
        DegreeSumOfEmpty(g.links);
        SizePositive(d, 0);
      }
    }
  }
}
