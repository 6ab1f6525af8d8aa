/** `BinaryTree.on`: every cell opens a passage to its north or its east
    neighbour, whichever exist, chosen at random when both do. */
module BinaryTree {
  import opened Wrappers
  import opened Arena
  import opened Cell
  import opened Tally
  import opened Choice
  import opened Snapshots
  import opened Sampling
  import opened Walks

  /** The candidates of cell i: its north neighbour, then its east one. */
  function Candidates(d: Dims, i: nat): (cs: seq<nat>)
    requires i < Area(d)
    ensures forall b: nat {:trigger b in cs} :: b in cs <==> North(d, i) == Some(b) || East(d, i) == Some(b)
    ensures |cs| == 0 <==> North(d, i).None? && East(d, i).None?
  {
    Present(North(d, i)) + Present(East(d, i))
  }

  /** The neighbour cell i links to, given the draws `pick`: its north or
      east neighbour. Only the top-right cell has no candidate. */
  function Choose(d: Dims, i: nat, pick: nat -> nat): (r: Option<nat>)
    requires i < Area(d)
    ensures r.None? <==> i == d.cols - 1
    ensures r.Some? ==> r == North(d, i) || r == East(d, i)
  {
    CoordOfIndex(d, i);
    RandomFrom(Candidates(d, i), pick(i))
  }

  /** A cell with one candidate is forced to it: east along the top row,
      north along the last column. */
  lemma ChoiceForced(d: Dims, i: nat, pick: nat -> nat)
    requires i < Area(d)
    ensures RowOf(d, i) == 0 ==> Choose(d, i, pick) == East(d, i)
    ensures ColOf(d, i) == d.cols - 1 ==> Choose(d, i, pick) == North(d, i)
  {
    CoordOfIndex(d, i);
  }

  /** The number of cells below i that have a candidate. */
  function NumChosen(d: Dims, i: nat): (r: nat) {
    if d.cols > 0 && i >= d.cols then i - 1 else i
  }

  /** Every cell but the top-right one has a candidate. */
  lemma AllChosen(d: Dims)
    ensures Area(d) > 0 ==> NumChosen(d, Area(d)) == Area(d) - 1
  {
    if Area(d) > 0 {
      SizePositive(d, 0);
      AreaIsProduct(d);
    }
  }

  /** The visit of cell i: link it to its chosen neighbour, if any, and
      count the link. */
  function Visit(run: Run, i: nat, pick: nat -> nat): (r: Run)
    requires Valid(run.grid) && i < Size(run.grid)
    ensures Valid(r.grid) && Shape(r.grid) == Shape(run.grid) && r.grid.cellSize == run.grid.cellSize
  {
    match Choose(Shape(run.grid), i, pick)
    case None => run
    case Some(nb) => Tick(run, Link(run.grid, i, nb, true))
  }

  /** A visit counts one step exactly when the cell has a candidate. */
  lemma VisitCounter(run: Run, i: nat, pick: nat -> nat)
    requires Valid(run.grid) && i < Size(run.grid)
    ensures Visit(run, i, pick).counter + NumChosen(Shape(run.grid), i) == run.counter + NumChosen(Shape(run.grid), i + 1)
  {
    NumChosenStep(Shape(run.grid), i, pick);
  }

  /** The pass over the cells in row-major order, from cell i on: it counts one step per
      remaining cell with a candidate. */
  function Walk(run: Run, i: nat, pick: nat -> nat): (r: Run)
    requires Valid(run.grid) && i <= Size(run.grid)
    ensures Valid(r.grid) && Shape(r.grid) == Shape(run.grid) && r.grid.cellSize == run.grid.cellSize
    ensures r.counter + NumChosen(Shape(run.grid), i) == run.counter + NumChosen(Shape(run.grid), Size(run.grid))
    ensures Extends(run, r)
    ensures ChosenBelow(run.grid, i, pick) ==> ChosenBelow(r.grid, Size(run.grid), pick)
    decreases Size(run.grid) - i
  {
    if i == Size(run.grid) then run
    else
      var next := Visit(run, i, pick);
      var r := Walk(next, i + 1, pick);
      VisitChosen(run, i, pick);
      VisitCounter(run, i, pick);
      VisitExtends(run, i, pick);
      ExtendsTrans(run, next, r);
      r
  }

  /** A visit keeps the history and samples the step it counts, if any. */
  lemma VisitExtends(run: Run, i: nat, pick: nat -> nat)
    requires Valid(run.grid) && i < Size(run.grid)
    ensures Extends(run, Visit(run, i, pick))
  {
    match Choose(Shape(run.grid), i, pick)
    case None =>
    case Some(nb) => TickExtends(run, Link(run.grid, i, nb, true));
  }

  /** `BinaryTree.on(grid, states)` with draws `pick`: one link per cell
      except the top-right one, whatever links the grid already had, and
      a history ending with the snapshot of the finished grid. */
  function On(g: Grid, states: seq<Snapshot>, pick: nat -> nat): (r: Run)
    requires Valid(g)
    ensures Valid(r.grid) && Shape(r.grid) == Shape(g) && r.grid.cellSize == g.cellSize
    ensures r.counter == if Size(g) == 0 then 0 else Size(g) - 1
    ensures Finished(r, states)
  {
    var start := Run(g, 0, states);
    var run := Walk(start, 0, pick);
    AllChosen(Shape(g));
    assert Accounted(start, states);
    ExtendsAccounted(start, run, states);
    FinishFinished(run, states);
    Finish(run)
  }

  /** The member of an optional cell, as a set. */
  function OptSet(o: Option<nat>): (r: set<nat>)
    ensures forall y: nat {:trigger y in r} :: y in r <==> o == Some(y)
  {
    if o.Some? then {o.value} else {}
  }

  /** The cell s, if it exists, was walked (s < i) and chose x. */
  function ChoseMe(d: Dims, i: nat, x: nat, s: Option<nat>, pick: nat -> nat): (r: set<nat>)
    requires s.Some? ==> s.value < Area(d)
  {
    if s.Some? && s.value < i && Choose(d, s.value, pick) == Some(x) then {s.value} else {}
  }

  /** The links of cell x once the cells below i are walked from an empty
      grid: its own choice, if it was walked, plus its southern and western
      neighbours if they were walked and chose it (only they can). */
  function Expected(d: Dims, i: nat, x: nat, pick: nat -> nat): (r: set<nat>)
    requires x < Area(d)
  {
    Own(d, i, x, pick) + ChoseMe(d, i, x, South(d, x), pick) + ChoseMe(d, i, x, West(d, x), pick)
  }

  /** Cell x's own choice, once it is walked. */
  function Own(d: Dims, i: nat, x: nat, pick: nat -> nat): (r: set<nat>)
    requires x < Area(d)
  {
    if x < i then OptSet(Choose(d, x, pick)) else {}
  }

  /** The link sets of all cells once the cells below i are walked. */
  function ExpectedLinks(d: Dims, i: nat, pick: nat -> nat): (r: seq<set<nat>>)
    ensures |r| == Area(d)
    ensures forall x: nat {:trigger r[x]} :: x < Area(d) ==> r[x] == Expected(d, i, x, pick)
  {
    seq(Area(d), x requires 0 <= x < Area(d) => Expected(d, i, x, pick))
  }

  /** The links of a grid walked up to cell i from an empty start. */
  ghost predicate ChosenBelow(g: Grid, i: nat, pick: nat -> nat) {
    g.links == ExpectedLinks(Shape(g), i, pick)
  }

  /** With every cell walked, x and y are linked exactly when one chose the
      other. */
  lemma ExpectedMeaning(d: Dims, x: nat, y: nat, pick: nat -> nat)
    requires x < Area(d) && y < Area(d)
    ensures y in Expected(d, Area(d), x, pick) <==> Choose(d, x, pick) == Some(y) || Choose(d, y, pick) == Some(x)
  {
    NeighbourSymmetry(d, x, y);
    NeighbourSymmetry(d, y, x);
  }

  /** A walked cell never chose a later cell that chooses it back. */
  lemma NoMutualChoice(d: Dims, i: nat, nb: nat, pick: nat -> nat)
    requires i < Area(d) && Choose(d, i, pick) == Some(nb)
    ensures nb < Area(d) && nb != i
    ensures nb < i ==> Choose(d, nb, pick) != Some(i)
  {
    SizePositive(d, i);
  }

  /** The chosen neighbour sees the chooser as its south or west neighbour. */
  lemma ChoiceSeesBack(d: Dims, i: nat, nb: nat, pick: nat -> nat)
    requires i < Area(d) && Choose(d, i, pick) == Some(nb)
    ensures nb < Area(d)
    ensures South(d, nb) == Some(i) || West(d, nb) == Some(i)
  {
    NeighbourSymmetry(d, i, nb);
  }

  lemma ChoseMeStep(d: Dims, i: nat, x: nat, s: Option<nat>, pick: nat -> nat)
    requires i < Area(d) && (s.Some? ==> s.value < Area(d))
    ensures ChoseMe(d, i + 1, x, s, pick) ==
      ChoseMe(d, i, x, s, pick) + (if s == Some(i) && Choose(d, i, pick) == Some(x) then {i} else {})
  {
  }

  /** Walking cell i changes the expected links of i and of its choice only. */
  lemma ExpectedStep(d: Dims, i: nat, x: nat, pick: nat -> nat)
    requires i < Area(d) && x < Area(d)
    ensures forall y {:trigger y in Expected(d, i + 1, x, pick)} :: y in Expected(d, i + 1, x, pick) <==>
      || y in Expected(d, i, x, pick)
      || (x == i && Choose(d, i, pick) == Some(y))
      || (y == i && Choose(d, i, pick) == Some(x))
  {
    var s, w := South(d, x), West(d, x);
    ChoseMeStep(d, i, x, s, pick);
    ChoseMeStep(d, i, x, w, pick);
    if Choose(d, i, pick) == Some(x) {
      ChoiceSeesBack(d, i, x, pick);
    }
  }

  /** A bidirectional link of a and b adds b to the links of a, a to those
      of b, and nothing elsewhere. */
  lemma LinkAt(g: Grid, a: nat, b: nat, x: nat)
    requires Valid(g) && a < Size(g) && b < Size(g) && x < Size(g)
    ensures Link(g, a, b, true).links[x] ==
      if x == b then g.links[x] + {a}
      else if x == a then g.links[x] + {b}
      else g.links[x]
  {
  }

  /** One visit keeps the link relation equal to the walked cells' choices. */
  lemma VisitChosen(run: Run, i: nat, pick: nat -> nat)
    requires Valid(run.grid) && i < Size(run.grid)
    ensures ChosenBelow(run.grid, i, pick) ==> ChosenBelow(Visit(run, i, pick).grid, i + 1, pick)
  {
    var g, d := run.grid, Shape(run.grid);
    if !ChosenBelow(g, i, pick) {
      return;
    }
    match Choose(d, i, pick)
    case None => ExpectedLinksKept(d, i, pick);
    case Some(nb) =>
      ExpectedLinksGrow(d, i, nb, pick);
      var e, h := g.links, Link(g, i, nb, true).links;
      var u := e[i := e[i] + {nb}][nb := e[nb] + {i}];
      forall x: nat | x < Size(g) ensures h[x] == u[x] {
        LinkAt(g, i, nb, x);
      }
      assert h == u;
  }

  /** The choice of cell i is not among the links expected before its visit,
      at either end. */
  lemma FreshChoice(d: Dims, i: nat, nb: nat, pick: nat -> nat)
    requires i < Area(d) && Choose(d, i, pick) == Some(nb)
    ensures nb < Area(d) && nb != i
    ensures nb !in Expected(d, i, i, pick) && i !in Expected(d, i, nb, pick)
  {
    NoMutualChoice(d, i, nb, pick);
    CoordOfIndex(d, i);
  }

  /** The expected link sets after walking a cell without a candidate are
      unchanged. */
  lemma ExpectedLinksKept(d: Dims, i: nat, pick: nat -> nat)
    requires i < Area(d) && Choose(d, i, pick).None?
    ensures ExpectedLinks(d, i + 1, pick) == ExpectedLinks(d, i, pick)
  {
    var e, e' := ExpectedLinks(d, i, pick), ExpectedLinks(d, i + 1, pick);
    forall x: nat | x < Area(d) ensures e'[x] == e[x] {
      ExpectedStep(d, i, x, pick);
    }
    assert e' == e;
  }

  /** Walking cell i with choice nb adds nb to the links of i, i to those
      of nb, and nothing elsewhere. */
  lemma GrowAt(d: Dims, i: nat, nb: nat, x: nat, pick: nat -> nat)
    requires i < Area(d) && x < Area(d) && Choose(d, i, pick) == Some(nb)
    ensures Expected(d, i + 1, x, pick) ==
      if x == nb then Expected(d, i, x, pick) + {i}
      else if x == i then Expected(d, i, x, pick) + {nb}
      else Expected(d, i, x, pick)
  {
    NoMutualChoice(d, i, nb, pick);
    ExpectedStep(d, i, x, pick);
  }

  /** The expected link sets after walking cell i with choice nb: the chooser
      gains its choice and the choice gains the chooser. */
  lemma ExpectedLinksGrow(d: Dims, i: nat, nb: nat, pick: nat -> nat)
    requires i < Area(d) && Choose(d, i, pick) == Some(nb)
    ensures var e := ExpectedLinks(d, i, pick);
      nb < |e| && ExpectedLinks(d, i + 1, pick) == e[i := e[i] + {nb}][nb := e[nb] + {i}]
  {
    var e, e' := ExpectedLinks(d, i, pick), ExpectedLinks(d, i + 1, pick);
    NoMutualChoice(d, i, nb, pick);
    var u := e[i := e[i] + {nb}][nb := e[nb] + {i}];
    assert |u| == |e'|;
    forall x | 0 <= x < |u| ensures e'[x] == u[x] {
      GrowAt(d, i, nb, x, pick);
    }
    assert e' == u;
  }

  /** Walking cell i adds two to the degree sum of the expected links
      exactly when it has a candidate. */
  lemma ExpectedCountStep(d: Dims, i: nat, pick: nat -> nat)
    requires i < Area(d)
    ensures DegreeSum(ExpectedLinks(d, i + 1, pick)) ==
      DegreeSum(ExpectedLinks(d, i, pick)) + (if Choose(d, i, pick).Some? then 2 else 0)
  {
    match Choose(d, i, pick)
    case None => ExpectedLinksKept(d, i, pick);
    case Some(nb) =>
      ExpectedLinksGrow(d, i, nb, pick);
      var e := ExpectedLinks(d, i, pick);
      FreshChoice(d, i, nb, pick);
      var e1 := e[i := e[i] + {nb}];
      DegreeSumUpdate(e, i, e[i] + {nb});
      assert e1[nb] == e[nb];
      DegreeSumUpdate(e1, nb, e[nb] + {i});
  }

  lemma NumChosenStep(d: Dims, i: nat, pick: nat -> nat)
    requires i < Area(d)
    ensures NumChosen(d, i + 1) == NumChosen(d, i) + (if Choose(d, i, pick).Some? then 1 else 0)
  {
    SizePositive(d, i);
  }

  /** Before any cell is walked no link is expected. */
  lemma NothingExpected(d: Dims, pick: nat -> nat)
    ensures forall x :: 0 <= x < Area(d) ==> ExpectedLinks(d, 0, pick)[x] == {}
    ensures DegreeSum(ExpectedLinks(d, 0, pick)) == 0
  {
    var e := ExpectedLinks(d, 0, pick);
    forall x | 0 <= x < |e| ensures e[x] == {} {
    }
    DegreeSumOfEmpty(e);
  }

  /** The expected links after walking the cells below i count each chosen
      link twice. */
  lemma {:induction false} ExpectedCount(d: Dims, i: nat, pick: nat -> nat)
    requires i <= Area(d)
    ensures DegreeSum(ExpectedLinks(d, i, pick)) == 2 * NumChosen(d, i)
  {
    if i == 0 {
      NothingExpected(d, pick);
    } else {
      var j := i - 1;
      ExpectedCount(d, j, pick);
      ExpectedCountStep(d, j, pick);
      NumChosenStep(d, j, pick);
      assert DegreeSum(ExpectedLinks(d, j + 1, pick)) == 2 * NumChosen(d, j + 1);
    }
  }

  /** Binary Tree on an empty grid ends with exactly the walked cells'
      choices linked, rows*cols - 1 of them counted from both ends. */
  lemma OnChosen(g: Grid, states: seq<Snapshot>, pick: nat -> nat)
    requires Valid(g)
    requires forall i :: 0 <= i < Size(g) ==> g.links[i] == {}
    ensures ChosenBelow(On(g, states, pick).grid, Size(g), pick)
    ensures DegreeSum(On(g, states, pick).grid.links) == 2 * NumChosen(Shape(g), Size(g))
  {
    assert ChosenBelow(g, 0, pick);
    ExpectedCount(Shape(g), Size(g), pick);
  }

  /** Binary Tree on an empty grid: cells x and y are linked exactly when
      one of them chose the other. */
  lemma BinaryTreeLinks(g: Grid, states: seq<Snapshot>, pick: nat -> nat)
    requires Valid(g)
    requires forall i :: 0 <= i < Size(g) ==> g.links[i] == {}
    ensures forall x: nat, y: nat {:trigger y in On(g, states, pick).grid.links[x]} :: x < Size(g) && y < Size(g) ==>
      (y in On(g, states, pick).grid.links[x] <==> Choose(Shape(g), x, pick) == Some(y) || Choose(Shape(g), y, pick) == Some(x))
  {
    OnChosen(g, states, pick);
    var r := On(g, states, pick).grid;
    forall x: nat, y: nat {:trigger y in r.links[x]} | x < Size(g) && y < Size(g)
      ensures y in r.links[x] <==> Choose(Shape(g), x, pick) == Some(y) || Choose(Shape(g), y, pick) == Some(x)
    {
      ExpectedMeaning(Shape(g), x, y, pick);
    }
  }

  /** A chosen neighbour is adjacent, seen from either end. */
  lemma ChoiceAdjacent(d: Dims, x: nat, y: nat, pick: nat -> nat)
    requires x < Area(d) && y < Area(d) && Choose(d, x, pick) == Some(y)
    ensures Adjacent(d, x, y) && Adjacent(d, y, x)
  {
    NeighbourSymmetry(d, x, y);
  }

  /** The number of north and east moves from x to the top-right cell. */
  function ToCorner(d: Dims, x: nat): (n: nat)
    requires x < Area(d)
  {
    CoordOfIndex(d, x);
    RowOf(d, x) + (d.cols - 1 - ColOf(d, x))
  }

  /** Following the choices from x climbs to the top-right cell, one north or
      east move at a time; as every choice is linked at both ends, the way
      back down is a trail too. */
  lemma {:induction false} ClimbToCorner(m: Grid, pick: nat -> nat, x: nat)
    requires Valid(m) && x < Size(m) && m.cols > 0
    requires forall i, j :: 0 <= i < Size(m) && 0 <= j < Size(m) && Choose(Shape(m), i, pick) == Some(j) ==>
      j in m.links[i] && i in m.links[j]
    ensures Reachable(m, x, m.cols - 1) && Reachable(m, m.cols - 1, x)
    decreases ToCorner(Shape(m), x)
  {
    var d := Shape(m);
    match Choose(d, x, pick)
    case None =>
      ReachSelf(m, x);
    case Some(y) =>
      ChoiceAdjacent(d, x, y, pick);
      NeighbourCoords(d, x);
      CoordOfIndex(d, y);
      assert ToCorner(d, y) < ToCorner(d, x);
      ClimbToCorner(m, pick, y);
      assert Move(m, x, y) && Move(m, y, x);
      ReachAfter(m, x, y, m.cols - 1);
      ReachThen(m, m.cols - 1, y, x);
  }

  /** Binary Tree on an empty grid: every link is a passage between
      neighbours, present at both ends, and there are exactly rows*cols - 1
      of them (the degree sum counts each twice); every two cells are joined
      by a trail through the top-right cell, so the links form a spanning
      tree. */
  lemma BinaryTreeMaze(g: Grid, states: seq<Snapshot>, pick: nat -> nat)
    requires Valid(g)
    requires forall i :: 0 <= i < Size(g) ==> g.links[i] == {}
    ensures Symmetric(On(g, states, pick).grid) && Passages(On(g, states, pick).grid)
    ensures Size(g) > 0 ==> DegreeSum(On(g, states, pick).grid.links) == 2 * (Size(g) - 1)
    ensures Size(g) > 0 ==> Spans(On(g, states, pick).grid)
  {
    var d := Shape(g);
    OnChosen(g, states, pick);
    AllChosen(d);
    BinaryTreeLinks(g, states, pick);
    var r := On(g, states, pick).grid;
    forall x: nat, y: nat | x < Size(g) && y in r.links[x] ensures Adjacent(d, x, y) {
      assert y < Size(g);
      if Choose(d, y, pick) == Some(x) {
        ChoiceAdjacent(d, y, x, pick);
      } else {
        ChoiceAdjacent(d, x, y, pick);
      }
    }
    assert Passages(r);
    if Size(g) > 0 {
      SizePositive(d, 0);
      var corner: nat := g.cols - 1;
      forall x | 0 <= x < Size(g) ensures Reachable(r, x, corner) && Reachable(r, corner, x) {
        ClimbToCorner(r, pick, x);
      }
      HubSpans(r, corner);
    }
  }
}
