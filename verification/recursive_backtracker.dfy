/** `RecursiveBacktracker.on`: a depth-first walk with an explicit stack,
    pushing a random unvisited neighbour of the top after linking it, and
    popping the top once it has none. The draw of the n-th counted step is
    pick(n). */
module RecursiveBacktracker {
  import opened Wrappers
  import opened Arena
  import opened Cell
  import opened Tally
  import opened Snapshots
  import opened Choice
  import opened Sampling
  import opened Visits
  import opened Walks

  /** The run so far and the stack of cells, the top last. */
  datatype Backtracker = Backtracker(progress: Run, stack: seq<nat>)

  /** The stack holds cells of the grid. */
  ghost predicate OnGrid(b: Backtracker)
  {
    && Valid(b.progress.grid)
    && forall k :: 0 <= k < |b.stack| ==> b.stack[k] < Size(b.progress.grid)
  }

  /** One iteration of the loop that runs while the stack is not empty. */
  function Step(b: Backtracker, pick: nat -> nat): (r: Backtracker)
    requires OnGrid(b) && |b.stack| > 0
    ensures OnGrid(r)
    ensures Shape(r.progress.grid) == Shape(b.progress.grid) && r.progress.grid.cellSize == b.progress.grid.cellSize
  {
    var g, top := b.progress.grid, b.stack[|b.stack| - 1];
    var neighbours := Unvisited(g, top);
    if |neighbours| == 0 then
      Backtracker(b.progress, b.stack[..|b.stack| - 1])
    else
      var nb := RandomFrom(neighbours, pick(b.progress.counter)).value;
      Backtracker(Tick(b.progress, Link(g, top, nb, true)), b.stack + [nb])
  }

  /** A step pops exactly when the top has no unvisited neighbour, leaving
      the run alone; otherwise it links the top to an unvisited neighbour and
      pushes that neighbour. */
  lemma StepPushesOrPops(b: Backtracker, pick: nat -> nat)
    requires OnGrid(b) && |b.stack| > 0
    ensures var g, top, r := b.progress.grid, b.stack[|b.stack| - 1], Step(b, pick);
      && (|Unvisited(g, top)| == 0 <==> |r.stack| < |b.stack|)
      && (|Unvisited(g, top)| == 0 ==> r.progress == b.progress && r.stack == b.stack[..|b.stack| - 1])
      && (|Unvisited(g, top)| > 0 ==>
            && |r.stack| == |b.stack| + 1 && r.stack[..|b.stack|] == b.stack
            && var nb := r.stack[|b.stack|];
            && nb < Size(g) && Adjacent(Shape(g), top, nb) && g.links[nb] == {}
            && r.progress == Tick(b.progress, Link(g, top, nb, true)))
  {
    var g, top, r := b.progress.grid, b.stack[|b.stack| - 1], Step(b, pick);
    if |Unvisited(g, top)| > 0 {
      assert r.stack[..|b.stack|] == b.stack;
    }
  }

  /** Each step links a new cell or shortens the stack. */
  lemma StepShrinks(b: Backtracker, pick: nat -> nat)
    requires OnGrid(b) && |b.stack| > 0
    ensures var r := Step(b, pick);
      || |Linkless(r.progress.grid)| < |Linkless(b.progress.grid)|
      || (r.progress.grid == b.progress.grid && |r.stack| < |b.stack|)
  {
    var g, top := b.progress.grid, b.stack[|b.stack| - 1];
    StepPushesOrPops(b, pick);
    if |Unvisited(g, top)| > 0 {
      var r := Step(b, pick);
      LinkShrinks(g, top, r.stack[|b.stack|]);
    }
  }

  /** The reachable states for a walk started at s. */
  ghost predicate Sound(b: Backtracker, s: nat)
    requires OnGrid(b)
  {
    Holds(b.progress.grid, b.stack, s)
  }

  /** Links mutual and counted; the stack holds visited cells or s; nothing
      is visited while s is not; and every visited cell (or s) with an
      unvisited neighbour is on the stack. */
  ghost predicate Holds(g: Grid, stack: seq<nat>, s: nat)
    requires Valid(g)
  {
    && s < Size(g)
    && Symmetric(g)
    && Grown(g)
    && StackVisited(g, stack, s)
    && (g.links[s] == {} ==> Untouched(g))
    && Frontier(g, stack, s)
  }

  ghost predicate StackVisited(g: Grid, stack: seq<nat>, s: nat)
    requires Valid(g)
  {
    forall k :: 0 <= k < |stack| ==> stack[k] == s || (stack[k] < Size(g) && g.links[stack[k]] != {})
  }

  /** x is s or visited, and has an unvisited neighbour. */
  ghost predicate Open(g: Grid, x: nat, s: nat)
    requires Valid(g) && x < Size(g)
  {
    (g.links[x] != {} || x == s) && |Unvisited(g, x)| > 0
  }

  /** Every open cell is on the stack. */
  ghost predicate Frontier(g: Grid, stack: seq<nat>, s: nat)
    requires Valid(g)
  {
    forall x :: 0 <= x < Size(g) && Open(g, x, s) ==> x in stack
  }

  lemma PopFrontier(g: Grid, stack: seq<nat>, s: nat)
    requires Valid(g) && |stack| > 0 && stack[|stack| - 1] < Size(g)
    requires Frontier(g, stack, s) && |Unvisited(g, stack[|stack| - 1])| == 0
    ensures Frontier(g, stack[..|stack| - 1], s)
  {
    var top := stack[|stack| - 1];
    forall x | 0 <= x < Size(g) && Open(g, x, s)
      ensures x in stack[..|stack| - 1]
    {
      assert x in stack;
      PopKeeps(stack, x);
    }
  }

  /** An element other than the last survives a pop. */
  lemma PopKeeps(stack: seq<nat>, x: nat)
    requires x in stack && x != stack[|stack| - 1]
    ensures x in stack[..|stack| - 1]
  {
    var k :| 0 <= k < |stack| && stack[k] == x;
    assert stack[..|stack| - 1][k] == x;
  }

  /** Linking only shrinks the unvisited neighbours of a cell. */
  lemma UnvisitedShrinks(g: Grid, a: nat, b: nat, x: nat)
    requires Valid(g) && a < Size(g) && b < Size(g) && x < Size(g)
    ensures forall y :: y in Unvisited(Link(g, a, b, true), x) ==> y in Unvisited(g, x)
  {
  }

  lemma PushFrontier(g: Grid, stack: seq<nat>, s: nat, top: nat, nb: nat)
    requires Valid(g) && top < Size(g) && nb < Size(g)
    requires Frontier(g, stack, s) && top in stack
    ensures Frontier(Link(g, top, nb, true), stack + [nb], s)
  {
    var h := Link(g, top, nb, true);
    forall x | 0 <= x < Size(h) && Open(h, x, s)
      ensures x in stack + [nb]
    {
      if x != nb && x != top {
        UnvisitedShrinks(g, top, nb, x);
        assert Unvisited(h, x)[0] in Unvisited(g, x);
        assert g.links[x] == h.links[x];
        assert Open(g, x, s);
      }
    }
  }

  lemma PopHolds(g: Grid, stack: seq<nat>, s: nat)
    requires Valid(g) && |stack| > 0 && stack[|stack| - 1] < Size(g)
    requires Holds(g, stack, s) && |Unvisited(g, stack[|stack| - 1])| == 0
    ensures Holds(g, stack[..|stack| - 1], s)
  {
    PopFrontier(g, stack, s);
    var p := stack[..|stack| - 1];
    forall k | 0 <= k < |p| ensures p[k] == s || (p[k] < Size(g) && g.links[p[k]] != {}) {
      assert p[k] == stack[k];
    }
  }

  lemma PushHolds(g: Grid, stack: seq<nat>, s: nat, nb: nat)
    requires Valid(g) && |stack| > 0 && stack[|stack| - 1] < Size(g) && nb < Size(g)
    requires Adjacent(Shape(g), stack[|stack| - 1], nb) && g.links[nb] == {}
    requires Holds(g, stack, s)
    ensures Holds(Link(g, stack[|stack| - 1], nb, true), stack + [nb], s)
  {
    var top := stack[|stack| - 1];
    var h := Link(g, top, nb, true);
    assert top == s || g.links[top] != {};
    JoinUnvisited(g, top, nb);
    PushFrontier(g, stack, s, top, nb);
    PushStackVisited(g, stack, s, top, nb);
    assert h.links[s] != {} by {
      if g.links[s] == {} {
        assert top == s;
      }
    }
  }

  lemma PushStackVisited(g: Grid, stack: seq<nat>, s: nat, top: nat, nb: nat)
    requires Valid(g) && top < Size(g) && nb < Size(g)
    requires StackVisited(g, stack, s)
    ensures StackVisited(Link(g, top, nb, true), stack + [nb], s)
  {
    var h, q := Link(g, top, nb, true), stack + [nb];
    LinkKeeps(g, top, nb);
    forall k | 0 <= k < |q| ensures q[k] == s || (q[k] < Size(h) && h.links[q[k]] != {}) {
      if k < |stack| {
        assert q[k] == stack[k];
      } else {
        assert top in h.links[nb];
      }
    }
  }

  lemma StepSound(b: Backtracker, s: nat, pick: nat -> nat)
    requires OnGrid(b) && |b.stack| > 0
    ensures Sound(b, s) ==> Sound(Step(b, pick), s)
  {
    if !Sound(b, s) {
      return;
    }
    var g, top, r := b.progress.grid, b.stack[|b.stack| - 1], Step(b, pick);
    StepPushesOrPops(b, pick);
    if |Unvisited(g, top)| == 0 {
      PopHolds(g, b.stack, s);
    } else {
      PushHolds(g, b.stack, s, r.stack[|b.stack|]);
    }
  }

  /** A step extends the run, keeps every link and keeps links well formed. */
  lemma StepKeeps(b: Backtracker, pick: nat -> nat)
    requires OnGrid(b) && |b.stack| > 0
    ensures var r := Step(b, pick);
      && Extends(b.progress, r.progress)
      && Keeps(b.progress.grid, r.progress.grid)
      && (WellLinked(b.progress.grid) ==> WellLinked(r.progress.grid))
  {
    var g, top, r := b.progress.grid, b.stack[|b.stack| - 1], Step(b, pick);
    StepPushesOrPops(b, pick);
    if |Unvisited(g, top)| > 0 {
      var nb := r.stack[|b.stack|];
      TickExtends(b.progress, Link(g, top, nb, true));
      LinkKeeps(g, top, nb);
      if WellLinked(g) {
        LinkKeepsWellLinked(g, top, nb);
      }
    }
  }

  /** The stack loop, run until the stack is empty. */
  function Loop(b: Backtracker, pick: nat -> nat): (r: Backtracker)
    requires OnGrid(b)
    ensures OnGrid(r) && r.stack == []
    ensures Shape(r.progress.grid) == Shape(b.progress.grid) && r.progress.grid.cellSize == b.progress.grid.cellSize
    ensures Extends(b.progress, r.progress)
    ensures Keeps(b.progress.grid, r.progress.grid)
    ensures WellLinked(b.progress.grid) ==> WellLinked(r.progress.grid)
    ensures forall s :: Sound(b, s) ==> Sound(r, s)
    decreases |Linkless(b.progress.grid)|, |b.stack|
  {
    if |b.stack| == 0 then b
    else
      var next := Step(b, pick);
      StepShrinks(b, pick);
      var r := Loop(next, pick);
      StepKeeps(b, pick);
      forall s ensures Sound(b, s) ==> Sound(next, s) {
        StepSound(b, s, pick);
      }
      KeepsTrans(b.progress.grid, next.progress.grid, r.progress.grid);
      ExtendsTrans(b.progress, next.progress, r.progress);
      r
  }

  /** `RecursiveBacktracker.on(grid, states)` with the walk starting at the
      random cell drawn with `start`. On a grid without cells the stack holds
      no cell and reading its neighbours fails. */
  function On(g: Grid, states: seq<Snapshot>, start: nat, pick: nat -> nat): (r: Result<Run>)
    requires Valid(g)
    ensures r.Err? <==> Size(g) == 0
    ensures r.Err? ==> r.error == NoStartCell
    ensures r.Ok? ==> Valid(r.value.grid) && Shape(r.value.grid) == Shape(g) && r.value.grid.cellSize == g.cellSize
    ensures r.Ok? ==> Finished(r.value, states) && Keeps(g, r.value.grid)
    ensures r.Ok? && WellLinked(g) ==> WellLinked(r.value.grid)
  {
    match RandomCell(g, start)
    case None => Err(NoStartCell)
    case Some(c) =>
      var begin := Run(g, 0, states);
      var b := Loop(Backtracker(begin, [c]), pick);
      assert Accounted(begin, states);
      ExtendsAccounted(begin, b.progress, states);
      FinishFinished(b.progress, states);
      Ok(Finish(b.progress))
  }

  /** On a grid with no links and at least two cells, the backtracker links
      every cell, with exactly Size - 1 links, all mutual and between
      neighbours: a spanning tree. */
  lemma RecursiveBacktrackerMaze(g: Grid, states: seq<Snapshot>, start: nat, pick: nat -> nat)
    requires Valid(g) && Untouched(g) && Size(g) >= 2
    ensures var r := On(g, states, start, pick);
      && r.Ok?
      && WellLinked(r.value.grid)
      && Linkless(r.value.grid) == {}
      && Spans(r.value.grid)
      && DegreeSum(r.value.grid.links) == 2 * (Size(g) - 1)
  {
    var c := RandomCell(g, start).value;
    var begin := Backtracker(Run(g, 0, states), [c]);
    UntouchedWellLinked(g);
    assert Sound(begin, c);
    var b := Loop(begin, pick);
    assert On(g, states, start, pick).value.grid == b.progress.grid;
    Covers(b, c);
  }

  /** A sound final state with an empty stack, on two or more cells, has
      every cell linked by Size - 1 links. */
  lemma Covers(b: Backtracker, s: nat)
    requires OnGrid(b) && Sound(b, s) && b.stack == [] && Size(b.progress.grid) >= 2
    ensures Linkless(b.progress.grid) == {}
    ensures Spans(b.progress.grid)
    ensures DegreeSum(b.progress.grid.links) == 2 * (Size(b.progress.grid) - 1)
  {
    var g := b.progress.grid;
    EmptyFrontierCovers(g, s);
    assert !Untouched(g) by {
      assert s !in Linkless(g);
    }
    TreeSpans(g);
  }

  /** With no open cell, the start and then every cell is linked. */
  lemma EmptyFrontierCovers(g: Grid, s: nat)
    requires Valid(g) && s < Size(g) && Size(g) >= 2 && Frontier(g, [], s)
    ensures Linkless(g) == {}
  {
    var d := Shape(g);
    assert !Open(g, s, s);
    var j := NeighbourOf(d, s);
    NoUnvisited(g, s, j);
    forall x, y | 0 <= x < Size(g) && 0 <= y < Size(g) && g.links[x] != {} && Adjacent(d, x, y)
      ensures g.links[y] != {}
    {
      assert !Open(g, x, s);
      NoUnvisited(g, x, y);
    }
    ClosedCovers(g, j);
  }
}
