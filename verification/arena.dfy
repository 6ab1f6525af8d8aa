/** The grid layout: cells addressed by their row-major index, the bounded
    lookup `at`, and the four neighbour relations fixed at construction. */
module Arena {
  import opened Wrappers

  /** A rows x cols maze. Cell (r, c) is the index r * cols + c, so two cells
      are the same cell exactly when their coordinates agree. links[i] is the
      set of cells that cell i has no wall towards. cellSize is carried along
      for rendering and never read by the logic. */
  datatype Grid = Grid(rows: nat, cols: nat, cellSize: int, links: seq<set<nat>>)

  /** The dimensions of a grid. Everything that depends only on them (cell
      coordinates, `at`, the neighbour relations) takes the dimensions rather
      than the grid, because links never change them. */
  datatype Dims = Dims(rows: nat, cols: nat)

  function Shape(g: Grid): (r: Dims) {
    Dims(g.rows, g.cols)
  }

  /** Number of cells, rows * cols. It is computed by repeated addition so
      that the solver sees products only where a proof asks for them
      (`AreaIsProduct`). */
  function Area(d: Dims): (r: nat) {
    Mul(d.rows, d.cols)
  }

  function Mul(a: nat, b: nat): (r: nat) {
    if a == 0 then 0 else b + Mul(a - 1, b)
  }

  lemma {:induction false} MulIsProduct(a: nat, b: nat)
    ensures Mul(a, b) == a * b
  {
    if a > 0 {
      MulIsProduct(a - 1, b);
    }
  }

  lemma AreaIsProduct(d: Dims)
    ensures Area(d) == d.rows * d.cols
  {
    MulIsProduct(d.rows, d.cols);
  }

  function Size(g: Grid): (r: nat) {
    Area(Shape(g))
  }

  /** One link set per cell, and every link names a cell of the grid. */
  ghost predicate Valid(g: Grid) {
    && |g.links| == Size(g)
    && forall i, j :: 0 <= i < |g.links| && j in g.links[i] ==> j < |g.links|
  }

  lemma SizePositive(d: Dims, i: nat)
    requires i < Area(d)
    ensures d.cols > 0 && d.rows > 0
  {
    AreaIsProduct(d);
  }

  /** The row of cell i, `i / cols`. */
  function RowOf(d: Dims, i: nat): (r: nat)
    requires i < Area(d)
  {
    SizePositive(d, i);
    Div(i, d.cols)
  }

  /** The column of cell i, `i % cols`. */
  function ColOf(d: Dims, i: nat): (r: nat)
    requires i < Area(d)
  {
    SizePositive(d, i);
    Mod(i, d.cols)
  }

  // Quotient and remainder by repeated subtraction, for the same reason as
  // `Mul`.

  function Div(i: nat, n: nat): (r: nat)
    requires n > 0
  {
    if i < n then 0 else 1 + Div(i - n, n)
  }

  function Mod(i: nat, n: nat): (r: nat)
    requires n > 0
  {
    if i < n then i else Mod(i - n, n)
  }

  lemma {:induction false} DivMod(i: nat, n: nat)
    requires n > 0
    ensures i == Div(i, n) * n + Mod(i, n) && Mod(i, n) < n
  {
    if i >= n {
      DivMod(i - n, n);
    }
  }

  /** The coordinate of a cell is in range and determines its index. */
  lemma CoordOfIndex(d: Dims, i: nat)
    requires i < Area(d)
    ensures RowOf(d, i) < d.rows && ColOf(d, i) < d.cols
    ensures i == RowOf(d, i) * d.cols + ColOf(d, i)
  {
    SizePositive(d, i);
    AreaIsProduct(d);
    DivMod(i, d.cols);
    var q := RowOf(d, i);
    if q >= d.rows {
      MulMono(d.rows, q, d.cols);
    }
  }

  lemma MulMono(a: nat, b: nat, c: nat)
    requires a <= b
    ensures a * c <= b * c
  {
  }

  /** The index of an in-range coordinate is a cell with that coordinate. */
  lemma IndexOfCoord(d: Dims, row: nat, col: nat)
    requires row < d.rows && col < d.cols
    ensures row * d.cols + col < Area(d)
    ensures RowOf(d, row * d.cols + col) == row
    ensures ColOf(d, row * d.cols + col) == col
  {
    var i := row * d.cols + col;
    assert i < (row + 1) * d.cols;
    MulMono(row + 1, d.rows, d.cols);
    AreaIsProduct(d);
    assert i < Area(d);
    DivModUnique(i, d.cols, row, col);
  }

  lemma DivModUnique(i: nat, n: nat, q: nat, r: nat)
    requires n > 0 && r < n && i == q * n + r
    ensures Div(i, n) == q && Mod(i, n) == r
  {
    var q', r' := Div(i, n), Mod(i, n);
    DivMod(i, n);
    if q' < q {
      MulMono(q' + 1, q, n);
      assert false;
    } else if q < q' {
      MulMono(q + 1, q', n);
      assert false;
    }
  }

  /** `at(row, col)`. The source rejects `col > cols`, one past the last
      column; column `cols` itself passes the guard and then reads past the
      end of the row array, which yields undefined. The net effect is that a
      cell is returned exactly for coordinates inside the grid. */
  function At(d: Dims, row: int, col: int): (r: Option<nat>)
    ensures r.Some? <==> 0 <= row < d.rows && 0 <= col < d.cols
    ensures r.Some? ==> r.value < Area(d) && RowOf(d, r.value) == row && ColOf(d, r.value) == col
  {
    if row < 0 || row > d.rows - 1 || col < 0 || col > d.cols then None
    else ReadRow(d, row, col)
  }

  /** Element `col` of row array `row`, undefined past its end. */
  function ReadRow(d: Dims, row: nat, col: nat): (r: Option<nat>)
    requires row < d.rows
    ensures r.Some? <==> col < d.cols
    ensures r.Some? ==> r.value == row * d.cols + col
    ensures r.Some? ==> r.value < Area(d) && RowOf(d, r.value) == row && ColOf(d, r.value) == col
  {
    if col < d.cols then IndexOfCoord(d, row, col); Some(row * d.cols + col) else None
  }

  /** The grid a fresh `Grid(rows, cols, cellSize)` holds: no cell linked. */
  function NewGrid(rows: nat, cols: nat, cellSize: int): (g: Grid)
    ensures Valid(g) && g.rows == rows && g.cols == cols && g.cellSize == cellSize
    ensures forall i :: 0 <= i < Size(g) ==> g.links[i] == {}
  {
    AreaIsProduct(Dims(rows, cols));
    Grid(rows, cols, cellSize, seq(rows * cols, _ => {}))
  }

  /** `prepareGrid`: the rows x cols array of cells, row by row. */
  function PrepareGrid(d: Dims): (a: seq<seq<nat>>)
    ensures |a| == d.rows
    ensures forall r :: 0 <= r < d.rows ==> |a[r]| == d.cols
    ensures forall r, c :: 0 <= r < d.rows && 0 <= c < d.cols ==>
      a[r][c] < Area(d) && RowOf(d, a[r][c]) == r && ColOf(d, a[r][c]) == c
  {
    var a := seq(d.rows, r => seq(d.cols, c => r * d.cols + c));
    forall r, c | 0 <= r < d.rows && 0 <= c < d.cols
      ensures a[r][c] < Area(d) && RowOf(d, a[r][c]) == r && ColOf(d, a[r][c]) == c
    {
      IndexOfCoord(d, r, c);
    }
    a
  }

  /** Concatenation of a sequence of rows (the source's `flat()`). */
  function Flatten(rows: seq<seq<nat>>): (r: seq<nat>)
  {
    if |rows| == 0 then [] else Flatten(rows[..|rows| - 1]) + rows[|rows| - 1]
  }

  /** `cells`: the row-major flattening of the array, so the k-th cell listed
      is the cell with index k, and there are `size` of them. */
  function Cells(d: Dims): (cs: seq<nat>)
    ensures |cs| == Area(d)
    ensures forall k :: 0 <= k < |cs| ==> cs[k] == k
  {
    FlattenPrefix(d, d.rows);
    AreaIsProduct(d);
    assert PrepareGrid(d)[..d.rows] == PrepareGrid(d);
    Flatten(PrepareGrid(d))
  }

  lemma {:induction false} FlattenPrefix(d: Dims, m: nat)
    requires m <= d.rows
    ensures Flatten(PrepareGrid(d)[..m]) == seq(m * d.cols, k => k)
  {
    var a := PrepareGrid(d);
    if m > 0 {
      FlattenPrefix(d, m - 1);
      assert a[..m][..m - 1] == a[..m - 1];
      var base := (m - 1) * d.cols;
      assert base + d.cols == m * d.cols;
      var front, row := seq(base, k => k), a[m - 1];
      RowIndices(d, m - 1);
      AppendRange(base, d.cols, row);
    }
  }

  lemma RowIndices(d: Dims, r: nat)
    requires r < d.rows
    ensures |PrepareGrid(d)[r]| == d.cols
    ensures forall c :: 0 <= c < d.cols ==> PrepareGrid(d)[r][c] == r * d.cols + c
  {
    forall c | 0 <= c < d.cols ensures PrepareGrid(d)[r][c] == r * d.cols + c {
      IndexOfCoord(d, r, c);
      CoordOfIndex(d, PrepareGrid(d)[r][c]);
    }
  }

  lemma AppendRange(base: nat, n: nat, row: seq<nat>)
    requires |row| == n
    requires forall c :: 0 <= c < n ==> row[c] == base + c
    ensures seq(base, k => k) + row == seq(base + n, k => k)
  {
  }

  /** `size`: the number of cells listed by `cells`. */
  lemma CellsSize(d: Dims)
    ensures |Cells(d)| == d.rows * d.cols
  {
    AreaIsProduct(d);
  }

  // The neighbour relations set by `configureCells`, in index form: moving
  // north or south is a step of `cols`, west or east a step of one within
  // the row. `NeighboursAreAt` shows each is `at` of the adjacent coordinate,
  // as `configureCells` computes it, so each is absent at the boundary.

  function North(d: Dims, i: nat): (r: Option<nat>)
    requires i < Area(d)
    ensures r.Some? ==> r.value < Area(d)
  {
    if i >= d.cols then Some(i - d.cols) else None
  }

  function South(d: Dims, i: nat): (r: Option<nat>)
    requires i < Area(d)
    ensures r.Some? ==> r.value < Area(d)
  {
    if i + d.cols < Area(d) then Some(i + d.cols) else None
  }

  function West(d: Dims, i: nat): (r: Option<nat>)
    requires i < Area(d)
    ensures r.Some? ==> r.value < Area(d)
  {
    if ColOf(d, i) > 0 then CoordOfIndex(d, i); Some(i - 1) else None
  }

  function East(d: Dims, i: nat): (r: Option<nat>)
    requires i < Area(d)
    ensures r.Some? ==> r.value < Area(d)
  {
    if ColOf(d, i) < d.cols - 1 then CoordOfIndex(d, i); IndexOfCoord(d, RowOf(d, i), ColOf(d, i) + 1); Some(i + 1) else None
  }

  /** Stepping one cell along the row-major order: the next column, or the
      first column of the next row. */
  lemma {:induction false} ModStep(i: nat, n: nat)
    requires n > 0
    ensures Mod(i + 1, n) == if Mod(i, n) == n - 1 then 0 else Mod(i, n) + 1
    ensures Div(i + 1, n) == if Mod(i, n) == n - 1 then Div(i, n) + 1 else Div(i, n)
  {
    if i >= n {
      ModStep(i - n, n);
    }
  }

  lemma NorthIsAt(d: Dims, i: nat)
    requires i < Area(d)
    ensures North(d, i) == At(d, RowOf(d, i) - 1, ColOf(d, i))
  {
    CoordOfIndex(d, i);
    var row, col := RowOf(d, i), ColOf(d, i);
    if row > 0 {
      IndexOfCoord(d, row - 1, col);
      assert (row - 1) * d.cols + col == i - d.cols;
    }
  }

  lemma SouthIsAt(d: Dims, i: nat)
    requires i < Area(d)
    ensures South(d, i) == At(d, RowOf(d, i) + 1, ColOf(d, i))
  {
    CoordOfIndex(d, i);
    var row, col := RowOf(d, i), ColOf(d, i);
    if row + 1 < d.rows {
      IndexOfCoord(d, row + 1, col);
      assert (row + 1) * d.cols + col == i + d.cols;
    } else {
      AreaIsProduct(d);
      assert i + d.cols == d.rows * d.cols + col;
    }
  }

  lemma WestIsAt(d: Dims, i: nat)
    requires i < Area(d)
    ensures West(d, i) == At(d, RowOf(d, i), ColOf(d, i) - 1)
  {
    CoordOfIndex(d, i);
  }

  lemma EastIsAt(d: Dims, i: nat)
    requires i < Area(d)
    ensures East(d, i) == At(d, RowOf(d, i), ColOf(d, i) + 1)
  {
    CoordOfIndex(d, i);
  }

  /** Each neighbour is the cell `at` returns for the adjacent coordinate,
      as `configureCells` sets it. */
  lemma NeighboursAreAt(d: Dims, i: nat)
    requires i < Area(d)
    ensures North(d, i) == At(d, RowOf(d, i) - 1, ColOf(d, i))
    ensures South(d, i) == At(d, RowOf(d, i) + 1, ColOf(d, i))
    ensures West(d, i) == At(d, RowOf(d, i), ColOf(d, i) - 1)
    ensures East(d, i) == At(d, RowOf(d, i), ColOf(d, i) + 1)
  {
    NorthIsAt(d, i);
    SouthIsAt(d, i);
    WestIsAt(d, i);
    EastIsAt(d, i);
  }

  /** The neighbours in coordinates: present exactly away from the matching
      boundary, one row or column over. */
  lemma NeighbourCoords(d: Dims, i: nat)
    requires i < Area(d)
    ensures North(d, i).Some? <==> RowOf(d, i) > 0
    ensures South(d, i).Some? <==> RowOf(d, i) < d.rows - 1
    ensures West(d, i).Some? <==> ColOf(d, i) > 0
    ensures East(d, i).Some? <==> ColOf(d, i) < d.cols - 1
    ensures North(d, i).Some? ==> RowOf(d, North(d, i).value) == RowOf(d, i) - 1 && ColOf(d, North(d, i).value) == ColOf(d, i)
    ensures South(d, i).Some? ==> RowOf(d, South(d, i).value) == RowOf(d, i) + 1 && ColOf(d, South(d, i).value) == ColOf(d, i)
    ensures West(d, i).Some? ==> RowOf(d, West(d, i).value) == RowOf(d, i) && ColOf(d, West(d, i).value) == ColOf(d, i) - 1
    ensures East(d, i).Some? ==> RowOf(d, East(d, i).value) == RowOf(d, i) && ColOf(d, East(d, i).value) == ColOf(d, i) + 1
  {
    NeighboursAreAt(d, i);
  }

  /** j is one of the (at most four) neighbours of i. */
  predicate Adjacent(d: Dims, i: nat, j: nat)
    requires i < Area(d)
  {
    North(d, i) == Some(j) || South(d, i) == Some(j) || West(d, i) == Some(j) || East(d, i) == Some(j)
  }

  /** The neighbour relations are mutually inverse: the northern neighbour of
      a cell has that cell as its southern neighbour, and likewise west/east. */
  lemma NeighbourSymmetry(d: Dims, i: nat, j: nat)
    requires i < Area(d) && j < Area(d)
    ensures North(d, i) == Some(j) <==> South(d, j) == Some(i)
    ensures West(d, i) == Some(j) <==> East(d, j) == Some(i)
    ensures Adjacent(d, i, j) <==> Adjacent(d, j, i)
  {
    SizePositive(d, i);
    DivMod(i, d.cols);
    DivMod(j, d.cols);
    if i == j + 1 {
      ModStep(j, d.cols);
    }
    if j == i + 1 {
      ModStep(i, d.cols);
    }
  }

  /** Cells one row apart in the same column are north/south neighbours. */
  lemma VerticalStep(d: Dims, i: nat, j: nat)
    requires i < Area(d) && j < Area(d)
    requires ColOf(d, i) == ColOf(d, j) && RowOf(d, j) == RowOf(d, i) + 1
    ensures South(d, i) == Some(j)
  {
    CoordOfIndex(d, i);
    CoordOfIndex(d, j);
    assert RowOf(d, j) * d.cols == RowOf(d, i) * d.cols + d.cols;
  }

  /** Cells one column apart in the same row are west/east neighbours. */
  lemma HorizontalStep(d: Dims, i: nat, j: nat)
    requires i < Area(d) && j < Area(d)
    requires RowOf(d, i) == RowOf(d, j) && ColOf(d, j) == ColOf(d, i) + 1
    ensures East(d, i) == Some(j)
  {
    CoordOfIndex(d, i);
    CoordOfIndex(d, j);
  }

  /** Adjacent cells differ by one step in exactly one coordinate. */
  lemma AdjacentIsUnitStep(d: Dims, i: nat, j: nat)
    requires i < Area(d) && j < Area(d)
    ensures Adjacent(d, i, j) <==>
      (RowOf(d, i) == RowOf(d, j) && (ColOf(d, j) == ColOf(d, i) + 1 || ColOf(d, i) == ColOf(d, j) + 1)) ||
      (ColOf(d, i) == ColOf(d, j) && (RowOf(d, j) == RowOf(d, i) + 1 || RowOf(d, i) == RowOf(d, j) + 1))
  {
    NeighbourCoords(d, i);
    NeighbourSymmetry(d, i, j);
    var ri, ci, rj, cj := RowOf(d, i), ColOf(d, i), RowOf(d, j), ColOf(d, j);
    if ri == rj && cj == ci + 1 {
      HorizontalStep(d, i, j);
    } else if ri == rj && ci == cj + 1 {
      HorizontalStep(d, j, i);
    } else if ci == cj && rj == ri + 1 {
      VerticalStep(d, i, j);
    } else if ci == cj && ri == rj + 1 {
      VerticalStep(d, j, i);
    }
  }

  /** The grid graph is connected: a property of cells that holds somewhere and
      passes from every cell to its neighbours holds everywhere. */
  lemma {:induction false} ConnectedGrid(d: Dims, p: nat -> bool, v: nat)
    requires v < Area(d) && p(v)
    requires forall i, j :: 0 <= i < Area(d) && 0 <= j < Area(d) && Adjacent(d, i, j) && p(i) ==> p(j)
    ensures forall k :: 0 <= k < Area(d) ==> p(k)
  {
    ReachOrigin(d, p, v);
    forall k | 0 <= k < Area(d) ensures p(k) {
      FromOrigin(d, p, k);
    }
  }

  lemma {:induction false} ReachOrigin(d: Dims, p: nat -> bool, v: nat)
    requires v < Area(d) && p(v)
    requires forall i, j :: 0 <= i < Area(d) && 0 <= j < Area(d) && Adjacent(d, i, j) && p(i) ==> p(j)
    ensures p(0)
    decreases v
  {
    SizePositive(d, v);
    if v >= d.cols {
      assert Adjacent(d, v, v - d.cols);
      ReachOrigin(d, p, v - d.cols);
    } else if v > 0 {
      assert West(d, v).Some?;
      assert Adjacent(d, v, v - 1);
      ReachOrigin(d, p, v - 1);
    }
  }

  lemma {:induction false} FromOrigin(d: Dims, p: nat -> bool, v: nat)
    requires v < Area(d) && p(0)
    requires forall i, j :: 0 <= i < Area(d) && 0 <= j < Area(d) && Adjacent(d, i, j) && p(i) ==> p(j)
    ensures p(v)
    decreases v
  {
    SizePositive(d, v);
    if v >= d.cols {
      FromOrigin(d, p, v - d.cols);
      assert Adjacent(d, v - d.cols, v);
    } else if v > 0 {
      FromOrigin(d, p, v - 1);
      assert East(d, v - 1).Some?;
      assert Adjacent(d, v - 1, v);
    }
  }

  /** In a grid of at least two cells every cell has a neighbour. */
  lemma SomeNeighbour(d: Dims, i: nat)
    requires i < Area(d) && Area(d) >= 2
    ensures North(d, i).Some? || South(d, i).Some? || West(d, i).Some? || East(d, i).Some?
  {
    CoordOfIndex(d, i);
    if d.cols == 1 {
      assert d.rows >= 2;
    }
  }
}
