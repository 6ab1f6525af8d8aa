/** What the walking generators (Hunt-and-Kill, Recursive Backtracker) share:
    the visited/unvisited neighbour filters, the count of links against
    visited cells, and the argument that a closed visited region covers the
    whole grid. */
module Visits {
  import opened Wrappers
  import opened Arena
  import opened Cell
  import opened Tally
  import opened Walks

  /** The members of xs whose having any link equals `linked`, in the order
      of xs (FilterKeepsRank). */
  function FilterByLinks(g: Grid, xs: seq<nat>, linked: bool): (r: seq<nat>)
    requires Valid(g) && forall k :: 0 <= k < |xs| ==> xs[k] < Size(g)
    ensures |r| <= |xs|
    ensures forall x :: x in r <==> x in xs && x < Size(g) && HasAnyLink(g, x) == linked
  {
    if |xs| == 0 then []
    else
      var rest := FilterByLinks(g, xs[1..], linked);
      if HasAnyLink(g, xs[0]) == linked then [xs[0]] + rest else rest
  }

  /** xs lists cells by strictly increasing rank around c: north, south,
      west, east. */
  ghost predicate RankOrdered(d: Dims, c: nat, xs: seq<nat>)
    requires c < Area(d)
  {
    forall i, j :: 0 <= i < j < |xs| ==> Rank(d, c, xs[i]) < Rank(d, c, xs[j])
  }

  /** Cells listed by strictly increasing rank are listed once each. */
  lemma RankOrderedDistinct(d: Dims, c: nat, xs: seq<nat>)
    requires c < Area(d) && RankOrdered(d, c, xs)
    ensures forall i, j :: 0 <= i < j < |xs| ==> xs[i] != xs[j]
  {
  }

  /** Filtering keeps the order of xs: listed by increasing rank around c,
      the kept cells are too. */
  lemma {:induction false} FilterKeepsRank(g: Grid, c: nat, xs: seq<nat>, linked: bool)
    requires Valid(g) && c < Size(g) && forall k :: 0 <= k < |xs| ==> xs[k] < Size(g)
    requires RankOrdered(Shape(g), c, xs)
    ensures RankOrdered(Shape(g), c, FilterByLinks(g, xs, linked))
  {
    if |xs| > 0 {
      var d := Shape(g);
      var r := FilterByLinks(g, xs, linked);
      var rest := FilterByLinks(g, xs[1..], linked);
      FilterKeepsRank(g, c, xs[1..], linked);
      if HasAnyLink(g, xs[0]) == linked {
        assert r == [xs[0]] + rest;
        forall j | 0 <= j < |rest| ensures Rank(d, c, xs[0]) < Rank(d, c, rest[j]) {
          assert rest[j] in xs[1..];
          var k :| 0 <= k < |xs[1..]| && xs[1..][k] == rest[j];
          assert xs[k + 1] == rest[j];
        }
        forall i, j | 0 <= i < j < |r| ensures Rank(d, c, r[i]) < Rank(d, c, r[j]) {
          assert r[j] == rest[j - 1];
          if i > 0 {
            assert r[i] == rest[i - 1];
          }
        }
      }
    }
  }

  /** The neighbours without any link: the neighbours not yet visited,
      each once, in the order north, south, west, east. */
  function Unvisited(g: Grid, c: nat): (r: seq<nat>)
    requires Valid(g) && c < Size(g)
    ensures forall x: nat :: x in r <==> x < Size(g) && Adjacent(Shape(g), c, x) && g.links[x] == {}
    ensures RankOrdered(Shape(g), c, r)
    ensures forall i, j :: 0 <= i < j < |r| ==> r[i] != r[j]
  {
    var ns := Neighbors(Shape(g), c);
    assert RankOrdered(Shape(g), c, ns);
    FilterKeepsRank(g, c, ns, false);
    RankOrderedDistinct(Shape(g), c, FilterByLinks(g, ns, false));
    FilterByLinks(g, ns, false)
  }

  /** The neighbours with some link: the neighbours already visited, each
      once, in the order north, south, west, east. */
  function Visited(g: Grid, c: nat): (r: seq<nat>)
    requires Valid(g) && c < Size(g)
    ensures forall x: nat :: x in r <==> x < Size(g) && Adjacent(Shape(g), c, x) && g.links[x] != {}
    ensures RankOrdered(Shape(g), c, r)
    ensures forall i, j :: 0 <= i < j < |r| ==> r[i] != r[j]
  {
    var ns := Neighbors(Shape(g), c);
    assert RankOrdered(Shape(g), c, ns);
    FilterKeepsRank(g, c, ns, true);
    RankOrderedDistinct(Shape(g), c, FilterByLinks(g, ns, true));
    FilterByLinks(g, ns, true)
  }

  /** A grid neighbour is a different cell. */
  lemma AdjacentDistinct(d: Dims, i: nat, j: nat)
    requires i < Area(d) && Adjacent(d, i, j)
    ensures i != j
  {
    SizePositive(d, i);
  }

  /** In a grid of two or more cells every cell has a neighbour. */
  lemma NeighbourOf(d: Dims, i: nat) returns (j: nat)
    requires i < Area(d) && Area(d) >= 2
    ensures j < Area(d) && Adjacent(d, i, j)
  {
    SomeNeighbour(d, i);
    if North(d, i).Some? {
      j := North(d, i).value;
    } else if South(d, i).Some? {
      j := South(d, i).value;
    } else if West(d, i).Some? {
      j := West(d, i).value;
    } else {
      j := East(d, i).value;
    }
  }

  /** Linking in either direction gives the same grid. */
  lemma LinkCommutes(g: Grid, a: nat, b: nat)
    requires Valid(g) && a < Size(g) && b < Size(g)
    ensures Link(g, a, b, true) == Link(g, b, a, true)
  {
    var r, s := Link(g, a, b, true), Link(g, b, a, true);
    forall x | 0 <= x < |g.links| ensures r.links[x] == s.links[x] {
    }
    assert r.links == s.links;
  }

  /** Linking a linkless cell removes it from the linkless cells. */
  lemma LinkShrinks(g: Grid, a: nat, b: nat)
    requires Valid(g) && a < Size(g) && b < Size(g) && g.links[b] == {}
    ensures |Linkless(Link(g, a, b, true))| < |Linkless(g)|
  {
    LinklessAfterLink(g, a, b);
    assert b in Linkless(g);
    var l := Linkless(g);
    assert l * {a, b} != {} by {
      assert b in l * {a, b};
    }
  }

  // Growing a tree. The walking generators link each newly visited cell to
  // one visited cell, so the visited cells stay joined by trails and the
  // links always number one fewer than the visited cells, once any cell is
  // visited.

  /** No cell has a link: the grid as the generators receive it. */
  ghost predicate Untouched(g: Grid)
    requires Valid(g)
  {
    forall x :: 0 <= x < Size(g) ==> g.links[x] == {}
  }

  /** The undirected links number one fewer than the linked cells. */
  ghost predicate LinksOneFewer(g: Grid)
    requires Valid(g)
  {
    DegreeSum(g.links) + 2 * |Linkless(g)| + 2 == 2 * Size(g)
  }

  /** Every two linked cells are joined by a trail. */
  ghost predicate Connected(g: Grid)
    requires Valid(g)
  {
    forall x, y :: 0 <= x < Size(g) && 0 <= y < Size(g) && g.links[x] != {} && g.links[y] != {} ==> Reachable(g, x, y)
  }

  /** The linked cells form a tree: connected, with one link fewer than
      cells. */
  ghost predicate LinkedTree(g: Grid)
    requires Valid(g)
  {
    LinksOneFewer(g) && Connected(g)
  }

  /** What the walking generators keep: nothing linked yet, or a tree on the
      linked cells. */
  ghost predicate Grown(g: Grid)
    requires Valid(g)
  {
    Untouched(g) || LinkedTree(g)
  }

  lemma UntouchedWellLinked(g: Grid)
    requires Valid(g) && Untouched(g)
    ensures WellLinked(g)
  {
  }

  /** Linking a visited cell to an unvisited one, or the first two cells of an
      untouched grid, keeps the links one fewer than the linked cells. */
  lemma GrowCount(g: Grid, a: nat, b: nat)
    requires Valid(g) && Symmetric(g) && a < Size(g) && b < Size(g) && a != b
    requires Untouched(g) || (LinksOneFewer(g) && g.links[a] != {} && g.links[b] == {})
    ensures LinksOneFewer(Link(g, a, b, true))
  {
    if Untouched(g) {
      GrowFirst(g, a, b);
    } else {
      GrowOne(g, a, b);
    }
  }

  lemma GrowFirst(g: Grid, a: nat, b: nat)
    requires Valid(g) && Untouched(g) && a < Size(g) && b < Size(g) && a != b
    ensures LinksOneFewer(Link(g, a, b, true))
  {
    var h := Link(g, a, b, true);
    LinklessAfterLink(g, a, b);
    LinklessOfNew(g);
    FreshLinkAddsTwo(g, a, b);
    var l := Linkless(g);
    assert a in l && b in l;
    assert |Linkless(h)| == |l| - 2;
  }

  lemma GrowOne(g: Grid, a: nat, b: nat)
    requires Valid(g) && Symmetric(g) && a < Size(g) && b < Size(g)
    requires LinksOneFewer(g) && g.links[a] != {} && g.links[b] == {}
    ensures LinksOneFewer(Link(g, a, b, true))
  {
    var h := Link(g, a, b, true);
    LinklessAfterLink(g, a, b);
    assert b !in g.links[a];
    FreshLinkAddsTwo(g, a, b);
    var l := Linkless(g);
    assert Linkless(h) == l - {b};
  }

  /** Linking a neighbour b without links to a, which is linked unless no
      cell is, keeps the linked cells connected. */
  lemma GrowConnected(g: Grid, a: nat, b: nat)
    requires Valid(g) && a < Size(g) && b < Size(g) && Adjacent(Shape(g), a, b)
    requires g.links[b] == {}
    requires Untouched(g) || (Connected(g) && g.links[a] != {})
    ensures Connected(Link(g, a, b, true))
  {
    var h := Link(g, a, b, true);
    NeighbourSymmetry(Shape(g), a, b);
    assert Move(h, a, b) && Move(h, b, a);
    LinkKeeps(g, a, b);
    forall x, y | 0 <= x < Size(h) && 0 <= y < Size(h) && h.links[x] != {} && h.links[y] != {}
      ensures Reachable(h, x, y)
    {
      if x == y {
        ReachSelf(h, x);
      } else if Untouched(g) {
        assert {x, y} == {a, b};
        if x == a {
          ReachSelf(h, a);
          ReachThen(h, a, a, b);
        } else {
          ReachSelf(h, b);
          ReachThen(h, b, b, a);
        }
      } else {
        GrowReach(g, a, b, x, y);
      }
    }
  }

  /** The four cases of GrowConnected once some cell is linked: trails
      between old cells are kept, and b is reached through a. */
  lemma GrowReach(g: Grid, a: nat, b: nat, x: nat, y: nat)
    requires Valid(g) && a < Size(g) && b < Size(g) && x < Size(g) && y < Size(g)
    requires Connected(g) && g.links[a] != {} && g.links[b] == {}
    requires var h := Link(g, a, b, true); Move(h, a, b) && Move(h, b, a) && Keeps(g, h)
    requires var h := Link(g, a, b, true); h.links[x] != {} && h.links[y] != {}
    ensures Reachable(Link(g, a, b, true), x, y)
  {
    var h := Link(g, a, b, true);
    assert x != b ==> g.links[x] != {};
    assert y != b ==> g.links[y] != {};
    if x == b && y == b {
      ReachSelf(h, b);
    } else if y == b {
      ReachKept(g, h, x, a);
      ReachThen(h, x, a, b);
    } else if x == b {
      ReachKept(g, h, a, y);
      ReachAfter(h, b, a, y);
    } else {
      ReachKept(g, h, x, y);
    }
  }

  /** Joining a neighbour b without links to a, which is linked unless no
      cell is, keeps the links mutual and the linked cells a tree, and leaves
      both cells linked. */
  lemma JoinUnvisited(g: Grid, a: nat, b: nat)
    requires Valid(g) && Symmetric(g) && Grown(g)
    requires a < Size(g) && b < Size(g) && Adjacent(Shape(g), a, b)
    requires g.links[b] == {} && (g.links[a] != {} || Untouched(g))
    ensures var h := Link(g, a, b, true);
      && Symmetric(h) && LinkedTree(h) && !Untouched(h)
      && h.links[a] != {} && h.links[b] != {}
  {
    var h := Link(g, a, b, true);
    AdjacentDistinct(Shape(g), a, b);
    GrowCount(g, a, b);
    GrowConnected(g, a, b);
    LinkKeepsSymmetry(g, a, b);
    assert b in h.links[a];
  }

  /** A tree on every cell of the grid is a spanning tree: every two cells
      are joined by a trail, and there are Size - 1 links. */
  lemma TreeSpans(g: Grid)
    requires Valid(g) && LinkedTree(g) && Linkless(g) == {}
    ensures Spans(g)
    ensures DegreeSum(g.links) == 2 * (Size(g) - 1)
  {
    forall x, y | 0 <= x < Size(g) && 0 <= y < Size(g) ensures Reachable(g, x, y) {
      assert x !in Linkless(g) && y !in Linkless(g);
    }
  }

  /** A grid with some link is no longer untouched. */
  lemma TouchedAt(g: Grid, x: nat)
    requires Valid(g) && x < Size(g) && g.links[x] != {}
    ensures !Untouched(g)
  {
  }

  // Covering the grid. When every neighbour of a linked cell is linked and
  // some cell is linked, every cell is linked: the grid is connected.

  /** Every neighbour of a linked cell is linked. */
  ghost predicate Closed(g: Grid)
    requires Valid(g)
  {
    forall x, y :: 0 <= x < Size(g) && 0 <= y < Size(g) && g.links[x] != {} && Adjacent(Shape(g), x, y) ==> g.links[y] != {}
  }

  /** A closed grid with one linked cell has every cell linked. */
  lemma ClosedCovers(g: Grid, v: nat)
    requires Valid(g) && Closed(g) && v < Size(g) && g.links[v] != {}
    ensures Linkless(g) == {}
  {
    var d := Shape(g);
    var p := (x: nat) => x < |g.links| && g.links[x] != {};
    ConnectedGrid(d, p, v);
    forall x | 0 <= x < |g.links| ensures g.links[x] != {} {
      assert p(x);
    }
  }

  /** A linked cell without unvisited neighbours has only linked neighbours. */
  lemma NoUnvisited(g: Grid, x: nat, y: nat)
    requires Valid(g) && x < Size(g) && y < Size(g) && |Unvisited(g, x)| == 0 && Adjacent(Shape(g), x, y)
    ensures g.links[y] != {}
  {
    assert y !in Unvisited(g, x);
  }

  /** If no linkless cell has a linked neighbour, the grid is closed. */
  lemma ClosedWhenNoFrontier(g: Grid)
    requires Valid(g) && Symmetric(g)
    requires forall c :: 0 <= c < Size(g) && g.links[c] == {} ==> |Visited(g, c)| == 0
    ensures Closed(g)
  {
    var d := Shape(g);
    forall x, y | 0 <= x < Size(g) && 0 <= y < Size(g) && g.links[x] != {} && Adjacent(d, x, y)
      ensures g.links[y] != {}
    {
      NeighbourSymmetry(d, x, y);
      assert g.links[y] == {} ==> x in Visited(g, y);
    }
  }
}
