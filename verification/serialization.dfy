/** `serialize` and `deserialize`: the plain-data form a grid travels in. */
module Serialization {
  import opened Wrappers
  import opened Arena
  import opened Cell

  /** A `[row, col]` pair. */
  datatype Coord = Coord(row: int, col: int)

  /** One entry of `cellData`: a cell's coordinate and the coordinates of
      the cells it is linked to. */
  datatype CellData = CellData(row: int, col: int, links: seq<Coord>)

  datatype GridData = GridData(rows: nat, cols: nat, cellSize: int, cellData: seq<CellData>)

  function CoordOf(g: Grid, c: nat): (r: Coord)
    requires c < Size(g)
  {
    Coord(RowOf(Shape(g), c), ColOf(Shape(g), c))
  }

  /** The members of s below n, in ascending order. This stands in for the
      insertion order of the source's Set, which the model does not keep. */
  function Ascending(s: set<nat>, n: nat): (xs: seq<nat>)
    ensures forall x :: x in xs <==> x in s && x < n
    ensures forall i :: 0 <= i < |xs| ==> xs[i] in s && xs[i] < n
    ensures forall i, j :: 0 <= i < j < |xs| ==> xs[i] < xs[j]
  {
    if n == 0 then []
    else
      var front := Ascending(s, n - 1);
      front + (if n - 1 in s then [n - 1] else [])
  }

  function LinkCoords(g: Grid, c: nat): (ps: seq<Coord>)
    requires Valid(g) && c < Size(g)
  {
    var xs := Ascending(g.links[c], Size(g));
    seq(|xs|, k requires 0 <= k < |xs| => CoordOf(g, xs[k]))
  }

  /** One entry of `cellData`: the cell's coordinate and exactly the
      coordinates in its link set. */
  function Entry(g: Grid, i: nat): (e: CellData)
    requires Valid(g) && i < Size(g)
    ensures e.row == RowOf(Shape(g), i) && e.col == ColOf(Shape(g), i)
    ensures forall p :: p in e.links ==> 0 <= p.row < g.rows && 0 <= p.col < g.cols
    ensures forall j :: 0 <= j < Size(g) ==> (CoordOf(g, j) in e.links <==> j in g.links[i])
  {
    var e := CellData(RowOf(Shape(g), i), ColOf(Shape(g), i), LinkCoords(g, i));
    forall j | 0 <= j < Size(g) ensures CoordOf(g, j) in e.links <==> j in g.links[i] {
      CoordsOfLinks(g, i, j);
    }
    forall p | p in e.links ensures 0 <= p.row < g.rows && 0 <= p.col < g.cols {
      var xs := Ascending(g.links[i], Size(g));
      var k :| 0 <= k < |xs| && p == CoordOf(g, xs[k]);
      CoordOfIndex(Shape(g), xs[k]);
    }
    e
  }

  /** `serialize`: rows, cols and cellSize, and for every cell, in row-major
      order, its coordinate and exactly the coordinates in its link set. */
  function Serialize(g: Grid): (d: GridData)
    requires Valid(g)
    ensures d.rows == g.rows && d.cols == g.cols && d.cellSize == g.cellSize
    ensures |d.cellData| == Size(g)
    ensures forall i :: 0 <= i < Size(g) ==>
      d.cellData[i].row == RowOf(Shape(g), i) && d.cellData[i].col == ColOf(Shape(g), i)
    ensures forall i, p :: 0 <= i < Size(g) && p in d.cellData[i].links ==>
      0 <= p.row < g.rows && 0 <= p.col < g.cols
    ensures forall i, j :: 0 <= i < Size(g) && 0 <= j < Size(g) ==>
      (CoordOf(g, j) in d.cellData[i].links <==> j in g.links[i])
  {
    var cd := seq(Size(g), i requires 0 <= i < Size(g) => Entry(g, i));
    assert forall i :: 0 <= i < Size(g) ==> cd[i] == Entry(g, i);
    GridData(g.rows, g.cols, g.cellSize, cd)
  }

  lemma CoordsOfLinks(g: Grid, i: nat, j: nat)
    requires Valid(g) && i < Size(g) && j < Size(g)
    ensures CoordOf(g, j) in LinkCoords(g, i) <==> j in g.links[i]
  {
    var xs := Ascending(g.links[i], Size(g));
    var ps := LinkCoords(g, i);
    if j in g.links[i] {
      var k :| 0 <= k < |xs| && xs[k] == j;
      assert ps[k] == CoordOf(g, j);
    }
    if CoordOf(g, j) in ps {
      var k :| 0 <= k < |ps| && ps[k] == CoordOf(g, j);
      CoordIdentifiesCell(g, xs[k], j);
    }
  }

  lemma CoordIdentifiesCell(g: Grid, a: nat, b: nat)
    requires a < Size(g) && b < Size(g)
    ensures CoordOf(g, a) == CoordOf(g, b) <==> a == b
  {
    CoordOfIndex(Shape(g), a);
    CoordOfIndex(Shape(g), b);
  }

  // ---------------------------------------------------------------------------
  // Deserialization

  /** Both coordinates lie inside g. */
  predicate InGrid(g: Grid, p: Coord) {
    0 <= p.row < g.rows && 0 <= p.col < g.cols
  }

  /** The cells named by the in-grid coordinates of ps. */
  ghost function Targets(g: Grid, ps: seq<Coord>): (r: set<nat>)
    decreases |ps|
  {
    if |ps| == 0 then {}
    else (if InGrid(g, ps[0]) then {ps[0].row * g.cols + ps[0].col} else {}) + Targets(g, ps[1..])
  }

  /** The links replaying one entry adds: between its cell and each target,
      both ways. */
  ghost predicate Joined(cell: Option<nat>, t: set<nat>, x: nat, y: nat) {
    cell.Some? && ((x == cell.value && y in t) || (y == cell.value && x in t))
  }

  /** An entry can be replayed: it lists no link, or its own coordinate and
      every listed coordinate lie inside the grid. */
  predicate EntryLoadable(g: Grid, e: CellData) {
    |e.links| == 0 || (InGrid(g, Coord(e.row, e.col)) && forall p :: p in e.links ==> InGrid(g, p))
  }

  lemma AtShape(g1: Grid, g2: Grid, row: int, col: int)
    requires g1.rows == g2.rows && g1.cols == g2.cols
    ensures At(Shape(g1), row, col) == At(Shape(g2), row, col)
  {
  }

  lemma AtIndex(g: Grid, p: Coord)
    requires InGrid(g, p)
    ensures At(Shape(g), p.row, p.col) == Some(p.row * g.cols + p.col)
  {
    IndexOfCoord(Shape(g), p.row, p.col);
    CoordOfIndex(Shape(g), At(Shape(g), p.row, p.col).value);
  }

  /** Replays one entry: links its cell to the cell at each listed
      coordinate, in order.
      Calling `link` on an absent cell, or linking an absent target (whose
      reverse `link` call dereferences undefined), throws. */
  function LinkEach(g: Grid, cell: Option<nat>, e: CellData, ps: seq<Coord>): (r: Result<Grid>)
    requires Valid(g) && (cell.Some? ==> cell.value < Size(g))
    ensures r.Ok? <==> |ps| == 0 || (cell.Some? && forall p :: p in ps ==> InGrid(g, p))
    ensures r.Ok? ==> Valid(r.value) && r.value.rows == g.rows && r.value.cols == g.cols && r.value.cellSize == g.cellSize
    ensures r.Ok? ==> forall x: nat, y: nat :: x < Size(g) ==>
      (y in r.value.links[x] <==> y in g.links[x] || Joined(cell, Targets(g, ps), x, y))
    decreases |ps|
  {
    if |ps| == 0 then Ok(g)
    else if cell.None? then Err(UndefinedCell(e.row, e.col))
    else match At(Shape(g), ps[0].row, ps[0].col)
      case None =>
        assert !InGrid(g, ps[0]) && ps[0] in ps;
        Err(UndefinedCell(ps[0].row, ps[0].col))
      case Some(o) =>
        var g1 := Link(g, cell.value, o, true);
        AtIndex(g, ps[0]);
        TargetsCons(g, g1, ps);
        var r := LinkEach(g1, cell, e, ps[1..]);
        if r.Ok? then LinkEachCompose(g, g1, r.value, cell.value, o, Targets(g, ps), Targets(g1, ps[1..])); r else r
  }

  lemma LinkEachCompose(g: Grid, g1: Grid, r: Grid, c: nat, o: nat, t: set<nat>, t1: set<nat>)
    requires Valid(g) && c < Size(g) && o < Size(g)
    requires g1 == Link(g, c, o, true)
    requires r.rows == g1.rows && r.cols == g1.cols && |r.links| == |g1.links|
    requires t == {o} + t1
    requires forall x: nat, y: nat :: x < Size(g1) ==>
      (y in r.links[x] <==> y in g1.links[x] || Joined(Some(c), t1, x, y))
    ensures forall x: nat, y: nat :: x < Size(g) ==>
      (y in r.links[x] <==> y in g.links[x] || Joined(Some(c), t, x, y))
  {
  }

  lemma TargetsCons(g: Grid, g1: Grid, ps: seq<Coord>)
    requires |ps| > 0 && InGrid(g, ps[0])
    requires g1.rows == g.rows && g1.cols == g.cols
    ensures Targets(g, ps) == {ps[0].row * g.cols + ps[0].col} + Targets(g1, ps[1..])
    ensures (forall p :: p in ps ==> InGrid(g, p)) <==> (forall p :: p in ps[1..] ==> InGrid(g1, p))
  {
    assert forall p :: p in ps <==> p == ps[0] || p in ps[1..];
    TargetsShape(g, g1, ps[1..]);
  }

  lemma {:induction false} TargetsShape(g: Grid, g1: Grid, ps: seq<Coord>)
    requires g1.rows == g.rows && g1.cols == g.cols
    ensures Targets(g, ps) == Targets(g1, ps)
    decreases |ps|
  {
    if |ps| > 0 {
      TargetsShape(g, g1, ps[1..]);
    }
  }

  /** The index of an in-grid coordinate. */
  function Spot(g: Grid, p: Coord): (r: nat)
    requires InGrid(g, p)
  {
    p.row * g.cols + p.col
  }

  /** The (cell, target) pairs one entry records. */
  ghost function EntryPairs(g: Grid, e: CellData): (r: set<(nat, nat)>) {
    var at := Coord(e.row, e.col);
    if InGrid(g, at) then (set y | y in Targets(g, e.links) :: (Spot(g, at), y)) else {}
  }

  /** The (cell, target) pairs a list of entries records. */
  ghost function Pairs(g: Grid, es: seq<CellData>): (r: set<(nat, nat)>)
    decreases |es|
  {
    if |es| == 0 then {} else EntryPairs(g, es[0]) + Pairs(g, es[1..])
  }

  /** The pair is recorded in one direction or the other. */
  ghost predicate Paired(ps: set<(nat, nat)>, x: nat, y: nat) {
    (x, y) in ps || (y, x) in ps
  }

  /** Replays the entries of `cellData` in order. */
  function LinkEntries(g: Grid, es: seq<CellData>): (r: Result<Grid>)
    requires Valid(g)
    ensures r.Ok? <==> forall k :: 0 <= k < |es| ==> EntryLoadable(g, es[k])
    ensures r.Ok? ==> Valid(r.value) && r.value.rows == g.rows && r.value.cols == g.cols && r.value.cellSize == g.cellSize
    ensures r.Ok? ==> forall x: nat, y: nat :: x < Size(g) ==>
      (y in r.value.links[x] <==> y in g.links[x] || Paired(Pairs(g, es), x, y))
    decreases |es|
  {
    if |es| == 0 then Ok(g)
    else
      var e := es[0];
      var cell := At(Shape(g), e.row, e.col);
      match LinkEach(g, cell, e, e.links)
      case Err(err) => Err(err)
      case Ok(g1) =>
        assert forall k :: 0 <= k < |es| - 1 ==> es[1..][k] == es[k + 1];
        var r := LinkEntries(g1, es[1..]);
        if r.Ok? then LinkEntriesCompose(g, g1, r.value, cell, es); r else r
  }

  lemma LinkEntriesCompose(g: Grid, g1: Grid, r: Grid, cell: Option<nat>, es: seq<CellData>)
    requires Valid(g) && |es| > 0 && cell == At(Shape(g), es[0].row, es[0].col)
    requires g1.rows == g.rows && g1.cols == g.cols && |g1.links| == |g.links|
    requires r.rows == g.rows && r.cols == g.cols && |r.links| == |g.links|
    requires forall x: nat, y: nat :: x < Size(g) ==>
      (y in g1.links[x] <==> y in g.links[x] || Joined(cell, Targets(g, es[0].links), x, y))
    requires forall x: nat, y: nat :: x < Size(g1) ==>
      (y in r.links[x] <==> y in g1.links[x] || Paired(Pairs(g1, es[1..]), x, y))
    ensures forall x: nat, y: nat :: x < Size(g) ==>
      (y in r.links[x] <==> y in g.links[x] || Paired(Pairs(g, es), x, y))
  {
    PairsShape(g, g1, es[1..]);
    var t := Targets(g, es[0].links);
    forall x: nat, y: nat ensures Joined(cell, t, x, y) <==> Paired(EntryPairs(g, es[0]), x, y) {
      if cell.Some? {
        AtIndex(g, Coord(es[0].row, es[0].col));
      }
    }
  }

  lemma {:induction false} PairsShape(g: Grid, g1: Grid, es: seq<CellData>)
    requires g1.rows == g.rows && g1.cols == g.cols
    ensures Pairs(g, es) == Pairs(g1, es)
    decreases |es|
  {
    if |es| > 0 {
      PairsShape(g, g1, es[1..]);
      TargetsShape(g, g1, es[0].links);
    }
  }

  /** Entry e lists a coordinate of cell y. */
  ghost predicate Lists(g: Grid, e: CellData, y: nat) {
    exists p :: p in e.links && InGrid(g, p) && Spot(g, p) == y
  }

  /** Entry e stands at cell x and lists cell y. */
  ghost predicate Records(g: Grid, e: CellData, x: nat, y: nat) {
    var at := Coord(e.row, e.col);
    InGrid(g, at) && Spot(g, at) == x && Lists(g, e, y)
  }

  lemma {:induction false} TargetsMeaning(g: Grid, ps: seq<Coord>, y: nat)
    ensures y in Targets(g, ps) <==> exists p :: p in ps && InGrid(g, p) && Spot(g, p) == y
    decreases |ps|
  {
    if |ps| > 0 {
      TargetsMeaning(g, ps[1..], y);
      assert forall p :: p in ps <==> p == ps[0] || p in ps[1..];
    }
  }

  lemma {:induction false} PairsMeaning(g: Grid, es: seq<CellData>, x: nat, y: nat)
    ensures (x, y) in Pairs(g, es) <==> exists k :: 0 <= k < |es| && Records(g, es[k], x, y)
    decreases |es|
  {
    if |es| > 0 {
      PairsMeaning(g, es[1..], x, y);
      TargetsMeaning(g, es[0].links, y);
      if exists k :: 0 <= k < |es| && Records(g, es[k], x, y) {
        var k :| 0 <= k < |es| && Records(g, es[k], x, y);
        if k > 0 {
          assert es[1..][k - 1] == es[k];
        }
      }
      if (x, y) in Pairs(g, es[1..]) {
        var k :| 0 <= k < |es| - 1 && Records(g, es[1..][k], x, y);
        assert es[1..][k] == es[k + 1];
      }
    }
  }

  /** The fresh grid `deserialize` replays the entries on. */
  function Frame(d: GridData): (r: Grid) {
    NewGrid(d.rows, d.cols, d.cellSize)
  }

  /** Some entry stands at x and lists y. */
  ghost predicate Recorded(d: GridData, x: nat, y: nat) {
    exists k :: 0 <= k < |d.cellData| && Records(Frame(d), d.cellData[k], x, y)
  }

  /** Every entry can be replayed: none refers to a cell outside the grid. */
  predicate Loadable(d: GridData) {
    forall k :: 0 <= k < |d.cellData| ==> EntryLoadable(Frame(d), d.cellData[k])
  }

  /** `deserialize`: builds a fresh grid of the recorded size and links every
      recorded pair with a bidirectional `link`. It fails exactly when an
      entry refers to a coordinate outside the grid; otherwise the result's
      links are exactly the recorded pairs taken both ways, so they are
      symmetric. */
  function Deserialize(d: GridData): (r: Result<Grid>)
    ensures r.Ok? <==> Loadable(d)
    ensures r.Ok? ==> Valid(r.value) && r.value.rows == d.rows && r.value.cols == d.cols && r.value.cellSize == d.cellSize
    ensures r.Ok? ==> Symmetric(r.value)
    ensures r.Ok? ==> forall x: nat, y: nat :: x < Size(r.value) && y < Size(r.value) ==>
      (y in r.value.links[x] <==> Recorded(d, x, y) || Recorded(d, y, x))
  {
    var g0 := Frame(d);
    var r := LinkEntries(g0, d.cellData);
    if r.Ok? then
      forall x: nat, y: nat | x < Size(g0) && y < Size(g0)
        ensures y in r.value.links[x] <==> Recorded(d, x, y) || Recorded(d, y, x)
      {
        PairsMeaning(g0, d.cellData, x, y);
        PairsMeaning(g0, d.cellData, y, x);
      }
      r
    else r
  }

  /** The round trip: a grid with symmetric links comes back from
      `deserialize(serialize(g))` unchanged, with the same `hasLink` relation. */
  lemma RoundTrip(g: Grid)
    requires Valid(g) && Symmetric(g)
    ensures Deserialize(Serialize(g)) == Ok(g)
  {
    var d := Serialize(g);
    SerializeLoadable(g);
    var h := Deserialize(d).value;
    assert Size(h) == Size(g);
    forall x | 0 <= x < Size(g) ensures h.links[x] == g.links[x] {
      forall y | y in h.links[x] ensures y in g.links[x] {
        RecordedMeansLinked(g, x, y);
        RecordedMeansLinked(g, y, x);
      }
      forall y | y in g.links[x] ensures y in h.links[x] {
        RecordedMeansLinked(g, x, y);
      }
    }
    assert h.links == g.links;
  }

  lemma SerializeLoadable(g: Grid)
    requires Valid(g)
    ensures Loadable(Serialize(g))
  {
    var d := Serialize(g);
    forall k | 0 <= k < |d.cellData| ensures EntryLoadable(Frame(d), d.cellData[k]) {
      CoordOfIndex(Shape(g), k);
    }
  }

  /** Serialize records exactly the links: x's entry lists y iff y is
      linked from x. */
  lemma RecordedMeansLinked(g: Grid, x: nat, y: nat)
    requires Valid(g) && x < Size(g) && y < Size(g)
    ensures Recorded(Serialize(g), x, y) <==> y in g.links[x]
  {
    if y in g.links[x] {
      LinkIsRecorded(g, x, y);
    }
    if Recorded(Serialize(g), x, y) {
      RecordIsLink(g, x, y);
    }
  }

  lemma LinkIsRecorded(g: Grid, x: nat, y: nat)
    requires Valid(g) && x < Size(g) && y < Size(g) && y in g.links[x]
    ensures Recorded(Serialize(g), x, y)
  {
    var d := Serialize(g);
    var g0 := Frame(d);
    CoordOfIndex(Shape(g), x);
    CoordOfIndex(Shape(g), y);
    var p := CoordOf(g, y);
    assert p in d.cellData[x].links;
    assert Spot(g0, p) == y;
    assert Records(g0, d.cellData[x], x, y);
  }

  lemma RecordIsLink(g: Grid, x: nat, y: nat)
    requires Valid(g) && x < Size(g) && y < Size(g) && Recorded(Serialize(g), x, y)
    ensures y in g.links[x]
  {
    var d := Serialize(g);
    var g0 := Frame(d);
    var k :| 0 <= k < |d.cellData| && Records(g0, d.cellData[k], x, y);
    CoordOfIndex(Shape(g), k);
    assert k == x;
    var p :| p in d.cellData[k].links && InGrid(g0, p) && Spot(g0, p) == y;
    assert g0.rows == g.rows && g0.cols == g.cols;
    SpotIsCoord(g, p);
    assert Spot(g, p) == y;
  }

  /** An in-grid coordinate is the coordinate of its index. */
  lemma SpotIsCoord(g: Grid, p: Coord)
    requires InGrid(g, p)
    ensures Spot(g, p) < Size(g) && CoordOf(g, Spot(g, p)) == p
  {
    IndexOfCoord(Shape(g), p.row, p.col);
  }
}
