/** `createSnapshot`: the per-cell wall picture the animation replays. */
module Snapshots {
  import opened Wrappers
  import opened Arena
  import opened Cell

  /** One cell of a snapshot. `north` and `west` say whether that neighbour
      exists; `east` and `south` say whether the cell is linked to that
      neighbour, which is false at the boundary. */
  datatype CellState = CellState(row: int, col: int, north: bool, west: bool, east: bool, south: bool)

  type Snapshot = seq<CellState>

  function StateOf(g: Grid, c: nat): (r: CellState)
    requires Valid(g) && c < Size(g)
  {
    CellState(RowOf(Shape(g), c), ColOf(Shape(g), c),
              North(Shape(g), c).Some?, West(Shape(g), c).Some?,
              HasLink(g, c, East(Shape(g), c)), HasLink(g, c, South(Shape(g), c)))
  }

  /** One entry per cell in row-major order, describing its open sides in
      terms of coordinates and the link relation. */
  function CreateSnapshot(g: Grid): (s: Snapshot)
    requires Valid(g)
    ensures |s| == Size(g)
    ensures forall i {:trigger s[i]} :: 0 <= i < |s| ==>
      && s[i].row == RowOf(Shape(g), i) && s[i].col == ColOf(Shape(g), i)
      && (s[i].north <==> RowOf(Shape(g), i) > 0)
      && (s[i].west <==> ColOf(Shape(g), i) > 0)
      && (s[i].east <==> ColOf(Shape(g), i) < g.cols - 1 && i + 1 in g.links[i])
      && (s[i].south <==> RowOf(Shape(g), i) < g.rows - 1 && i + g.cols in g.links[i])
  {
    var cs := Cells(Shape(g));
    var s := seq(|cs|, k requires 0 <= k < |cs| => StateOf(g, cs[k]));
    forall i {:trigger s[i]} | 0 <= i < |s|
      ensures && s[i].row == RowOf(Shape(g), i) && s[i].col == ColOf(Shape(g), i)
              && (s[i].north <==> RowOf(Shape(g), i) > 0)
              && (s[i].west <==> ColOf(Shape(g), i) > 0)
              && (s[i].east <==> ColOf(Shape(g), i) < g.cols - 1 && i + 1 in g.links[i])
              && (s[i].south <==> RowOf(Shape(g), i) < g.rows - 1 && i + g.cols in g.links[i])
    {
      StateOfMeaning(g, i);
    }
    s
  }

  lemma StateOfMeaning(g: Grid, c: nat)
    requires Valid(g) && c < Size(g)
    ensures var st := StateOf(g, c);
      && st.row == RowOf(Shape(g), c) && st.col == ColOf(Shape(g), c)
      && (st.north <==> RowOf(Shape(g), c) > 0)
      && (st.west <==> ColOf(Shape(g), c) > 0)
      && (st.east <==> ColOf(Shape(g), c) < g.cols - 1 && c + 1 in g.links[c])
      && (st.south <==> RowOf(Shape(g), c) < g.rows - 1 && c + g.cols in g.links[c])
  {
    NeighbourCoords(Shape(g), c);
  }
}
