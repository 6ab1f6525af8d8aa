/** `HuntAndKill.on`: a random walk to unvisited neighbours; when the walk is
    stuck, a hunt over the shuffled cells for an unvisited cell next to a
    visited one, which is joined to the maze and continues the walk. The
    draws of the n-th counted step are pick(n) and shuffles(n). */
module HuntAndKill {
  import opened Wrappers
  import opened Arena
  import opened Cell
  import opened Tally
  import opened Snapshots
  import opened Choice
  import opened Sampling
  import opened Visits
  import opened Walks

  /** The run so far and `current`, absent once a hunt finds nothing. */
  datatype Hunter = Hunter(progress: Run, current: Option<nat>)

  /** The cell the walk is at, when there is one. */
  ghost predicate OnGrid(h: Hunter)
  {
    Valid(h.progress.grid) && (h.current.Some? ==> h.current.value < Size(h.progress.grid))
  }

  /** The cell the hunt stops at: one without links that has a neighbour
      with links, i.e. an unvisited cell next to a visited one. */
  predicate Huntable(g: Grid, c: nat)
    requires Valid(g) && c < Size(g)
  {
    g.links[c] == {} && |Visited(g, c)| > 0
  }

  /** The hunt: the first huntable cell of `order`, if any. */
  function Hunt(g: Grid, order: seq<nat>): (r: Option<nat>)
    requires Valid(g) && forall k :: 0 <= k < |order| ==> order[k] < Size(g)
    ensures r.None? <==> forall k :: 0 <= k < |order| ==> !Huntable(g, order[k])
    ensures r.Some? ==> First(g, order, r.value)
  {
    if |order| == 0 then None
    else if Huntable(g, order[0]) then Some(order[0])
    else
      var r := Hunt(g, order[1..]);
      HuntShift(g, order, r);
      r
  }

  /** c is the first huntable cell of `order`. */
  ghost predicate First(g: Grid, order: seq<nat>, c: nat)
    requires Valid(g) && forall k :: 0 <= k < |order| ==> order[k] < Size(g)
  {
    exists k :: 0 <= k < |order| && order[k] == c && Huntable(g, c) && forall j :: 0 <= j < k ==> !Huntable(g, order[j])
  }

  lemma HuntShift(g: Grid, order: seq<nat>, r: Option<nat>)
    requires Valid(g) && 0 < |order| && forall k :: 0 <= k < |order| ==> order[k] < Size(g)
    requires !Huntable(g, order[0])
    requires r.Some? ==> First(g, order[1..], r.value)
    ensures r.Some? ==> First(g, order, r.value)
  {
    if r.Some? {
      var k :| 0 <= k < |order[1..]| && order[1..][k] == r.value && Huntable(g, r.value)
        && forall j :: 0 <= j < k ==> !Huntable(g, order[1..][j]);
      assert order[k + 1] == r.value;
      assert forall j :: 0 <= j < k + 1 ==> !Huntable(g, order[j]) by {
        forall j | 0 <= j < k + 1 ensures !Huntable(g, order[j]) {
          if j > 0 {
            assert order[j] == order[1..][j - 1];
          }
        }
      }
    }
  }

  /** One iteration of the main loop, which runs while there is a current cell: walk on while the current
      cell has an unvisited neighbour, hunt otherwise. */
  function Step(h: Hunter, pick: nat -> nat, shuffles: nat -> seq<nat>): (r: Hunter)
    requires OnGrid(h) && h.current.Some?
    requires IsShuffle(shuffles(h.progress.counter), Size(h.progress.grid))
    ensures OnGrid(r)
    ensures Shape(r.progress.grid) == Shape(h.progress.grid) && r.progress.grid.cellSize == h.progress.grid.cellSize
  {
    if |Unvisited(h.progress.grid, h.current.value)| > 0 then Advance(h, pick) else Restart(h, pick, shuffles)
  }

  /** Link the current cell to a random unvisited neighbour and move there. */
  function Advance(h: Hunter, pick: nat -> nat): (r: Hunter)
    requires OnGrid(h) && h.current.Some? && |Unvisited(h.progress.grid, h.current.value)| > 0
    ensures OnGrid(r) && r.current.Some?
    ensures Shape(r.progress.grid) == Shape(h.progress.grid) && r.progress.grid.cellSize == h.progress.grid.cellSize
  {
    var g, c := h.progress.grid, h.current.value;
    var nb := RandomFrom(Unvisited(g, c), pick(h.progress.counter)).value;
    Hunter(Tick(h.progress, Link(g, c, nb, true)), Some(nb))
  }

  /** The hunt: link the first huntable cell of the shuffled order to a
      random visited neighbour and continue from it; stop when there is none. */
  function Restart(h: Hunter, pick: nat -> nat, shuffles: nat -> seq<nat>): (r: Hunter)
    requires OnGrid(h)
    requires IsShuffle(shuffles(h.progress.counter), Size(h.progress.grid))
    ensures OnGrid(r)
    ensures Shape(r.progress.grid) == Shape(h.progress.grid) && r.progress.grid.cellSize == h.progress.grid.cellSize
  {
    var g, n := h.progress.grid, h.progress.counter;
    match Hunt(g, shuffles(n))
    case None => Hunter(h.progress, None)
    case Some(cell) =>
      var nb := RandomFrom(Visited(g, cell), pick(n)).value;
      Hunter(Tick(h.progress, Link(g, cell, nb, true)), Some(cell))
  }

  /** The cell a continuing step links its new current cell to. */
  lemma Joining(h: Hunter, pick: nat -> nat, shuffles: nat -> seq<nat>) returns (a: nat)
    requires OnGrid(h) && h.current.Some?
    requires IsShuffle(shuffles(h.progress.counter), Size(h.progress.grid))
    requires Step(h, pick, shuffles).current.Some?
    ensures var g, c, r := h.progress.grid, h.current.value, Step(h, pick, shuffles);
      var b := r.current.value;
      && g.links[b] == {}
      && a < Size(g) && Adjacent(Shape(g), a, b) && (a == c || g.links[a] != {})
      && r.progress == Tick(h.progress, Link(g, a, b, true))
  {
    var g, c, n := h.progress.grid, h.current.value, h.progress.counter;
    var d := Shape(g);
    var r := Step(h, pick, shuffles);
    if |Unvisited(g, c)| == 0 {
      var cell := Hunt(g, shuffles(n)).value;
      a := RandomFrom(Visited(g, cell), pick(n)).value;
      NeighbourSymmetry(d, cell, a);
      LinkCommutes(g, cell, a);
    } else {
      a := c;
      var nb := RandomFrom(Unvisited(g, c), pick(n)).value;
      NeighbourSymmetry(d, c, nb);
    }
  }

  /** Every step that goes on joins its new current cell, which had no links,
      to a neighbour that is the previous current cell or already visited;
      a step that stops changes nothing and leaves no cell to hunt. */
  lemma StepJoinsUnvisited(h: Hunter, pick: nat -> nat, shuffles: nat -> seq<nat>)
    requires OnGrid(h) && h.current.Some?
    requires IsShuffle(shuffles(h.progress.counter), Size(h.progress.grid))
    ensures var g, c, r := h.progress.grid, h.current.value, Step(h, pick, shuffles);
      r.current.Some? ==>
        && g.links[r.current.value] == {}
        && (exists a: nat :: Joins(h, a, r))
    ensures var g, c, r := h.progress.grid, h.current.value, Step(h, pick, shuffles);
      r.current.None? ==>
        && r.progress == h.progress
        && |Unvisited(g, c)| == 0
        && Exhausted(g)
  {
    var g, c, n := h.progress.grid, h.current.value, h.progress.counter;
    var r := Step(h, pick, shuffles);
    if r.current.Some? {
      var a := Joining(h, pick, shuffles);
      assert Joins(h, a, r);
    } else {
      forall x | 0 <= x < Size(g) ensures !Huntable(g, x) {
        assert x in shuffles(n);
      }
    }
  }

  /** r continues h by linking a, the previous current cell or an already
      visited one, to its new current cell, a neighbour. */
  ghost predicate Joins(h: Hunter, a: nat, r: Hunter)
    requires OnGrid(h) && h.current.Some? && r.current.Some?
  {
    var g, b := h.progress.grid, r.current.value;
    && a < Size(g) && b < Size(g) && Adjacent(Shape(g), a, b) && (a == h.current.value || g.links[a] != {})
    && r.progress == Tick(h.progress, Link(g, a, b, true))
  }

  /** The number of linkless cells drops on every step that goes on; a step
      that stops leaves the grid as it was. */
  lemma StepShrinks(h: Hunter, pick: nat -> nat, shuffles: nat -> seq<nat>)
    requires OnGrid(h) && h.current.Some?
    requires IsShuffle(shuffles(h.progress.counter), Size(h.progress.grid))
    ensures var r := Step(h, pick, shuffles);
      && (r.current.Some? ==> |Linkless(r.progress.grid)| < |Linkless(h.progress.grid)|)
      && (r.current.None? ==> r.progress.grid == h.progress.grid)
  {
    var g, r := h.progress.grid, Step(h, pick, shuffles);
    if r.current.Some? {
      var a := Joining(h, pick, shuffles);
      LinkShrinks(g, a, r.current.value);
    }
  }

  /** The reachable states: links mutual and counted, a current cell that is
      visited unless nothing is, and a walk that cannot stop while the grid
      is untouched. */
  ghost predicate Sound(h: Hunter)
    requires OnGrid(h)
  {
    var g := h.progress.grid;
    && Symmetric(g)
    && Grown(g)
    && (h.current.Some? ==> g.links[h.current.value] != {} || Untouched(g))
    && (Untouched(g) && Size(g) >= 2 ==> h.current.Some?)
  }

  lemma StepSound(h: Hunter, pick: nat -> nat, shuffles: nat -> seq<nat>)
    requires OnGrid(h) && h.current.Some?
    requires IsShuffle(shuffles(h.progress.counter), Size(h.progress.grid))
    ensures Sound(h) ==> Sound(Step(h, pick, shuffles))
  {
    var g, c, r := h.progress.grid, h.current.value, Step(h, pick, shuffles);
    var d := Shape(g);
    if !Sound(h) {
      return;
    }
    if r.current.Some? {
      var b := r.current.value;
      var a := Joining(h, pick, shuffles);
      JoinUnvisited(g, a, b);
    } else if Untouched(g) && Size(g) >= 2 {
      StepJoinsUnvisited(h, pick, shuffles);
      SomeNeighbour(d, c);
      assert false;
    }
  }

  /** No unvisited cell is next to a visited one. */
  ghost predicate Exhausted(g: Grid)
    requires Valid(g)
  {
    forall x :: 0 <= x < Size(g) ==> !Huntable(g, x)
  }

  /** The main loop, run until no current cell is left. */
  function Loop(h: Hunter, pick: nat -> nat, shuffles: nat -> seq<nat>): (r: Hunter)
    requires OnGrid(h)
    requires forall n :: IsShuffle(shuffles(n), Size(h.progress.grid))
    ensures OnGrid(r) && r.current.None?
    ensures Shape(r.progress.grid) == Shape(h.progress.grid) && r.progress.grid.cellSize == h.progress.grid.cellSize
    ensures Extends(h.progress, r.progress)
    ensures Keeps(h.progress.grid, r.progress.grid)
    ensures WellLinked(h.progress.grid) ==> WellLinked(r.progress.grid)
    ensures Sound(h) ==> Sound(r)
    ensures h.current.Some? ==> Exhausted(r.progress.grid)
    decreases |Linkless(h.progress.grid)|, if h.current.Some? then 1 else 0
  {
    if h.current.None? then h
    else
      var next := Step(h, pick, shuffles);
      StepShrinks(h, pick, shuffles);
      var r := Loop(next, pick, shuffles);
      StepKeeps(h, pick, shuffles);
      StepSound(h, pick, shuffles);
      KeepsTrans(h.progress.grid, next.progress.grid, r.progress.grid);
      ExtendsTrans(h.progress, next.progress, r.progress);
      StepExhausts(h, pick, shuffles);
      r
  }

  /** A step extends the run, keeps every link and keeps links well formed. */
  lemma StepKeeps(h: Hunter, pick: nat -> nat, shuffles: nat -> seq<nat>)
    requires OnGrid(h) && h.current.Some?
    requires IsShuffle(shuffles(h.progress.counter), Size(h.progress.grid))
    ensures var r := Step(h, pick, shuffles);
      && Extends(h.progress, r.progress)
      && Keeps(h.progress.grid, r.progress.grid)
      && (WellLinked(h.progress.grid) ==> WellLinked(r.progress.grid))
  {
    var g, r := h.progress.grid, Step(h, pick, shuffles);
    if r.current.Some? {
      var b := r.current.value;
      var a := Joining(h, pick, shuffles);
      TickExtends(h.progress, Link(g, a, b, true));
      LinkKeeps(g, a, b);
      if WellLinked(g) {
        LinkKeepsWellLinked(g, a, b);
      }
    }
  }

  /** A step that stops leaves nothing to hunt. */
  lemma StepExhausts(h: Hunter, pick: nat -> nat, shuffles: nat -> seq<nat>)
    requires OnGrid(h) && h.current.Some?
    requires IsShuffle(shuffles(h.progress.counter), Size(h.progress.grid))
    ensures var r := Step(h, pick, shuffles);
      r.current.None? ==> Exhausted(r.progress.grid)
  {
    StepJoinsUnvisited(h, pick, shuffles);
  }

  /** `HuntAndKill.on(grid, states)` with the walk starting at the random
      cell drawn with `start`; the walk never starts on an empty grid. */
  function On(g: Grid, states: seq<Snapshot>, start: nat, pick: nat -> nat, shuffles: nat -> seq<nat>): (r: Run)
    requires Valid(g)
    requires forall n :: IsShuffle(shuffles(n), Size(g))
    ensures Valid(r.grid) && Shape(r.grid) == Shape(g) && r.grid.cellSize == g.cellSize
    ensures Finished(r, states)
    ensures Keeps(g, r.grid)
    ensures WellLinked(g) ==> WellLinked(r.grid)
    ensures Size(g) > 0 ==> Exhausted(r.grid)
  {
    var begin := Run(g, 0, states);
    var h := Loop(Hunter(begin, RandomCell(g, start)), pick, shuffles);
    assert Accounted(begin, states);
    ExtendsAccounted(begin, h.progress, states);
    FinishFinished(h.progress, states);
    Finish(h.progress)
  }

  /** On a grid with no links and at least two cells, Hunt-and-Kill links
      every cell, with exactly Size - 1 links, all mutual and between
      neighbours: a spanning tree. */
  lemma HuntAndKillMaze(g: Grid, states: seq<Snapshot>, start: nat, pick: nat -> nat, shuffles: nat -> seq<nat>)
    requires Valid(g) && Untouched(g) && Size(g) >= 2
    requires forall n :: IsShuffle(shuffles(n), Size(g))
    ensures var r := On(g, states, start, pick, shuffles).grid;
      && WellLinked(r)
      && Linkless(r) == {}
      && Spans(r)
      && DegreeSum(r.links) == 2 * (Size(g) - 1)
  {
    var begin := Hunter(Run(g, 0, states), RandomCell(g, start));
    UntouchedWellLinked(g);
    assert Sound(begin);
    var h := Loop(begin, pick, shuffles);
    assert On(g, states, start, pick, shuffles).grid == h.progress.grid;
    Covers(h);
  }

  /** A sound, exhausted final state of a grid of two or more cells has every
      cell linked by Size - 1 links. */
  lemma Covers(h: Hunter)
    requires OnGrid(h) && Sound(h) && h.current.None? && Exhausted(h.progress.grid) && Size(h.progress.grid) >= 2
    ensures Linkless(h.progress.grid) == {}
    ensures Spans(h.progress.grid)
    ensures DegreeSum(h.progress.grid.links) == 2 * (Size(h.progress.grid) - 1)
  {
    var r := h.progress.grid;
    assert !Untouched(r);
    var v :| 0 <= v < Size(r) && r.links[v] != {};
    forall c | 0 <= c < Size(r) && r.links[c] == {} ensures |Visited(r, c)| == 0 {
      assert !Huntable(r, c);
    }
    ClosedWhenNoFrontier(r);
    ClosedCovers(r, v);
    TreeSpans(r);
  }
}
