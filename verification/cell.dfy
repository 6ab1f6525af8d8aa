/** A cell's link set and the cell-keyed map. A link between two cells means
    there is no wall between them. */
module Cell {
  import opened Wrappers
  import opened Arena

  /** `equals`: false for an absent argument, otherwise true exactly when
      row and column agree, which in the arena means the same index. */
  function Equals(d: Dims, a: nat, other: Option<nat>): (r: bool)
    requires a < Area(d)
    requires other.Some? ==> other.value < Area(d)
    ensures r <==> other == Some(a)
  {
    if other.None? then false
    else
      CoordOfIndex(d, a);
      CoordOfIndex(d, other.value);
      RowOf(d, a) == RowOf(d, other.value) && ColOf(d, a) == ColOf(d, other.value)
  }

  /** The entries a `link`/`unlink` of a towards b acts on: b in a's set,
      and a in b's set when bidirectional. */
  predicate Touches(a: nat, b: nat, bidirectional: bool, x: nat, y: nat) {
    (x == a && y == b) || (bidirectional && x == b && y == a)
  }

  /** `link(other, bidirectional)`: adds b to a's link set and, when
      bidirectional, a to b's (the source does this by calling link back with
      bidirectional = false). Adding to a set is idempotent. */
  function Link(g: Grid, a: nat, b: nat, bidirectional: bool): (r: Grid)
    requires Valid(g) && a < Size(g) && b < Size(g)
    ensures Valid(r) && r.rows == g.rows && r.cols == g.cols && r.cellSize == g.cellSize
    ensures forall x: nat, y: nat {:trigger y in r.links[x]} :: x < Size(g) ==>
      (y in r.links[x] <==> y in g.links[x] || Touches(a, b, bidirectional, x, y))
    decreases bidirectional
  {
    var g1 := g.(links := g.links[a := g.links[a] + {b}]);
    if bidirectional then Link(g1, b, a, false) else g1
  }

  /** `unlink(other, bidirectional)`: drops from a's link set every entry equal
      to b, and, when bidirectional, every entry of b's equal to a. */
  function Unlink(g: Grid, a: nat, b: nat, bidirectional: bool): (r: Grid)
    requires Valid(g) && a < Size(g) && b < Size(g)
    ensures Valid(r) && r.rows == g.rows && r.cols == g.cols && r.cellSize == g.cellSize
    ensures forall x: nat, y: nat {:trigger y in r.links[x]} :: x < Size(g) ==>
      (y in r.links[x] <==> y in g.links[x] && !Touches(a, b, bidirectional, x, y))
    decreases bidirectional
  {
    var kept := set l | l in g.links[a] && !Equals(Shape(g), l, Some(b));
    var g1 := g.(links := g.links[a := kept]);
    if bidirectional then Unlink(g1, b, a, false) else g1
  }

  /** `hasLink(other)`: false for an absent argument; otherwise whether some
      entry of a's link set equals other. */
  function HasLink(g: Grid, a: nat, other: Option<nat>): (r: bool)
    requires Valid(g) && a < Size(g)
    requires other.Some? ==> other.value < Size(g)
    ensures r <==> other.Some? && other.value in g.links[a]
  {
    other.Some? && exists l | l in g.links[a] :: Equals(Shape(g), l, other)
  }

  /** `hasAnyLink`: the link set is non-empty, i.e. some cell is linked. */
  function HasAnyLink(g: Grid, a: nat): (r: bool)
    requires Valid(g) && a < Size(g)
    ensures r <==> exists b {:trigger HasLink(g, a, Some(b))} :: 0 <= b < Size(g) && HasLink(g, a, Some(b))
    ensures !r <==> g.links[a] == {}
  {
    if |g.links[a]| != 0 then
      var b :| b in g.links[a];
      assert HasLink(g, a, Some(b));
      true
    else
      false
  }

  /** The position of a neighbour in the order north, south, west, east. */
  function Rank(d: Dims, a: nat, b: nat): (r: nat)
    requires a < Area(d)
  {
    if North(d, a) == Some(b) then 0
    else if South(d, a) == Some(b) then 1
    else if West(d, a) == Some(b) then 2
    else 3
  }

  /** The present member of an optional neighbour, as a list. */
  function Present(n: Option<nat>): (r: seq<nat>) {
    if n.Some? then [n.value] else []
  }

  /** `neighbors`: exactly the present neighbours, listed north, south, west,
      east, so there are at most four and none twice. */
  function Neighbors(d: Dims, a: nat): (ns: seq<nat>)
    requires a < Area(d)
    ensures |ns| <= 4
    ensures forall b: nat :: b in ns <==> b < Area(d) && Adjacent(d, a, b)
    ensures forall i, j :: 0 <= i < j < |ns| ==> Rank(d, a, ns[i]) < Rank(d, a, ns[j])
  {
    CoordOfIndex(d, a);
    Present(North(d, a)) + Present(South(d, a)) + Present(West(d, a)) + Present(East(d, a))
  }

  lemma NeighborsAreDistinct(d: Dims, a: nat)
    requires a < Area(d)
    ensures forall i, j :: 0 <= i < j < |Neighbors(d, a)| ==> Neighbors(d, a)[i] != Neighbors(d, a)[j]
  {
  }

  // ---------------------------------------------------------------------------
  // The cell-keyed map

  /** `_toIndex`: the key a cell is stored under. The source renders the
      coordinate as the string "row col"; the pair carries the same
      information. */
  datatype Key = Key(row: int, col: int)

  function KeyOf(d: Dims, c: nat): (r: Key)
    requires c < Area(d)
  {
    Key(RowOf(d, c), ColOf(d, c))
  }

  /** Keys identify cells: two cells share a key exactly when they are equal. */
  lemma KeyIdentifiesCell(d: Dims, a: nat, b: nat)
    requires a < Area(d) && b < Area(d)
    ensures KeyOf(d, a) == KeyOf(d, b) <==> Equals(d, a, Some(b))
  {
    CoordOfIndex(d, a);
    CoordOfIndex(d, b);
  }

  /** `CellMap`: a map whose keys are cell coordinates. */
  type CellMap<V> = map<Key, V>

  function MapHas<V>(d: Dims, m: CellMap<V>, c: nat): bool
    requires c < Area(d)
  {
    KeyOf(d, c) in m
  }

  /** `get`: undefined (None) for a cell that has no entry. */
  function MapGet<V>(d: Dims, m: CellMap<V>, c: nat): (r: Option<V>)
    requires c < Area(d)
    ensures r.Some? <==> MapHas(d, m, c)
  {
    if KeyOf(d, c) in m then Some(m[KeyOf(d, c)]) else None
  }

  /** `set`: afterwards c (and any cell equal to it) maps to v; every other
      cell keeps its entry. */
  function MapSet<V>(d: Dims, m: CellMap<V>, c: nat, v: V): (r: CellMap<V>)
    requires c < Area(d)
    ensures MapGet(d, r, c) == Some(v)
    ensures forall o :: 0 <= o < Area(d) && o != c ==> MapGet(d, r, o) == MapGet(d, m, o)
    ensures MapSize(r) == MapSize(m) + (if MapHas(d, m, c) then 0 else 1)
  {
    forall o | 0 <= o < Area(d) && o != c ensures KeyOf(d, o) != KeyOf(d, c) {
      KeyIdentifiesCell(d, o, c);
    }
    m[KeyOf(d, c) := v]
  }

  /** `delete`: removes the entry of c only. */
  function MapDelete<V>(d: Dims, m: CellMap<V>, c: nat): (r: CellMap<V>)
    requires c < Area(d)
    ensures !MapHas(d, r, c)
    ensures forall o :: 0 <= o < Area(d) && o != c ==> MapGet(d, r, o) == MapGet(d, m, o)
    ensures MapSize(r) == MapSize(m) - (if MapHas(d, m, c) then 1 else 0)
  {
    forall o | 0 <= o < Area(d) && o != c ensures KeyOf(d, o) != KeyOf(d, c) {
      KeyIdentifiesCell(d, o, c);
    }
    m - {KeyOf(d, c)}
  }

  /** `size`: the number of entries. */
  function MapSize<V>(m: CellMap<V>): nat {
    |m|
  }

  // ---------------------------------------------------------------------------
  // Laws of the link relation

  /** Links are symmetric: a sees b exactly when b sees a. */
  ghost predicate Symmetric(g: Grid)
    requires Valid(g)
  {
    forall x: nat, y: nat {:trigger y in g.links[x]} {:trigger x in g.links[y]} :: x < Size(g) && y < Size(g) ==> (y in g.links[x] <==> x in g.links[y])
  }

  /** After a bidirectional `link`, each cell has a link to the other. */
  lemma LinkIsMutual(g: Grid, a: nat, b: nat)
    requires Valid(g) && a < Size(g) && b < Size(g)
    ensures HasLink(Link(g, a, b, true), a, Some(b))
    ensures HasLink(Link(g, a, b, true), b, Some(a))
  {
  }

  /** Linking an already mutually linked pair changes nothing. */
  lemma LinkIdempotent(g: Grid, a: nat, b: nat)
    requires Valid(g) && a < Size(g) && b < Size(g)
    requires HasLink(g, a, Some(b)) && HasLink(g, b, Some(a))
    ensures Link(g, a, b, true) == g
  {
    var r := Link(g, a, b, true);
    assert |r.links| == |g.links|;
    forall x | 0 <= x < |g.links| ensures r.links[x] == g.links[x] {
    }
    assert r.links == g.links;
  }

  /** After a bidirectional `unlink`, neither cell has a link to the other,
      and every other link is as it was. */
  lemma UnlinkSeparates(g: Grid, a: nat, b: nat)
    requires Valid(g) && a < Size(g) && b < Size(g)
    ensures !HasLink(Unlink(g, a, b, true), a, Some(b))
    ensures !HasLink(Unlink(g, a, b, true), b, Some(a))
    ensures forall x: nat, y: nat :: x < Size(g) && y < Size(g) && !Touches(a, b, true, x, y) ==>
      HasLink(Unlink(g, a, b, true), x, Some(y)) == HasLink(g, x, Some(y))
  {
  }

  /** `unlink` undoes a `link` of a pair that was not linked either way. */
  lemma UnlinkUndoesLink(g: Grid, a: nat, b: nat)
    requires Valid(g) && a < Size(g) && b < Size(g)
    requires !HasLink(g, a, Some(b)) && !HasLink(g, b, Some(a))
    ensures Unlink(Link(g, a, b, true), a, b, true) == g
  {
    var r := Unlink(Link(g, a, b, true), a, b, true);
    forall x | 0 <= x < |g.links| ensures r.links[x] == g.links[x] {
    }
    assert r.links == g.links;
  }

  /** Bidirectional `link` and `unlink` keep the relation symmetric. */
  lemma LinkKeepsSymmetry(g: Grid, a: nat, b: nat)
    requires Valid(g) && Symmetric(g) && a < Size(g) && b < Size(g)
    ensures Symmetric(Link(g, a, b, true))
    ensures Symmetric(Unlink(g, a, b, true))
  {
  }
}
