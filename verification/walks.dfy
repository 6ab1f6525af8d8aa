/** Walks along links: the moves the path search makes, and the notion of
    one cell being reachable from another that both the search and the maze
    generators are stated with. */
module Walks {
  import opened Arena
  import opened Tally

  /** A move: y is a neighbour of x that x is linked to. */
  ghost predicate Move(g: Grid, x: nat, y: nat)
    requires Valid(g)
  {
    x < Size(g) && y < Size(g) && Adjacent(Shape(g), x, y) && y in g.links[x]
  }

  /** p lists cells from the last one reached back to the first: each cell
      is reached from the one after it by a move. */
  ghost predicate Trail(g: Grid, p: seq<nat>)
    requires Valid(g)
  {
    && |p| > 0
    && (forall i :: 0 <= i < |p| ==> p[i] < Size(g))
    && (forall i :: 0 <= i < |p| - 1 ==> Move(g, p[i + 1], p[i]))
  }

  /** p is a trail from a to b, listed from b back to a. */
  ghost predicate TrailBetween(g: Grid, p: seq<nat>, a: nat, b: nat)
    requires Valid(g)
  {
    Trail(g, p) && p[0] == b && p[|p| - 1] == a
  }

  /** b can be reached from a by moves. */
  ghost predicate Reachable(g: Grid, a: nat, b: nat)
    requires Valid(g)
  {
    exists p :: TrailBetween(g, p, a, b)
  }

  /** Every cell reaches itself by the trail of that cell alone. */
  lemma ReachSelf(g: Grid, a: nat)
    requires Valid(g) && a < Size(g)
    ensures Reachable(g, a, a)
  {
    assert TrailBetween(g, [a], a, a);
  }

  /** A trail from a to b followed by a move from b to c reaches c. */
  lemma ReachThen(g: Grid, a: nat, b: nat, c: nat)
    requires Valid(g) && Reachable(g, a, b) && Move(g, b, c)
    ensures Reachable(g, a, c)
  {
    var p :| TrailBetween(g, p, a, b);
    var q := [c] + p;
    assert forall i :: 0 < i < |q| ==> q[i] == p[i - 1];
    assert TrailBetween(g, q, a, c);
  }

  /** A move from a to b followed by a trail from b to c reaches c. */
  lemma ReachAfter(g: Grid, a: nat, b: nat, c: nat)
    requires Valid(g) && Move(g, a, b) && Reachable(g, b, c)
    ensures Reachable(g, a, c)
  {
    var p :| TrailBetween(g, p, b, c);
    var q := p + [a];
    assert forall i :: 0 <= i < |p| ==> q[i] == p[i];
    assert TrailBetween(g, q, a, c);
  }

  /** Reachability is transitive: trails join end to end. */
  lemma ReachTrans(g: Grid, a: nat, b: nat, c: nat)
    requires Valid(g) && Reachable(g, a, b) && Reachable(g, b, c)
    ensures Reachable(g, a, c)
  {
    var p :| TrailBetween(g, p, a, b);
    var q :| TrailBetween(g, q, b, c);
    var w := q + p[1..];
    assert forall i :: 0 <= i < |q| ==> w[i] == q[i];
    assert forall i :: |q| <= i < |w| ==> w[i] == p[i - |q| + 1];
    assert Trail(g, w) by {
      forall i | 0 <= i < |w| - 1 ensures Move(g, w[i + 1], w[i]) {
        if i + 1 < |q| {
        } else if i + 1 == |q| {
          assert w[i] == p[0];
        }
      }
    }
    assert TrailBetween(g, w, a, c);
  }

  /** Every trail of g is still a trail once links are added. */
  lemma ReachKept(g: Grid, h: Grid, a: nat, b: nat)
    requires Valid(g) && Valid(h) && Shape(g) == Shape(h) && Keeps(g, h)
    requires Reachable(g, a, b)
    ensures Reachable(h, a, b)
  {
    var p :| TrailBetween(g, p, a, b);
    assert forall i :: 0 <= i < |p| - 1 ==> Move(h, p[i + 1], p[i]) by {
      forall i | 0 <= i < |p| - 1 ensures Move(h, p[i + 1], p[i]) {
        assert Move(g, p[i + 1], p[i]);
      }
    }
    assert TrailBetween(h, p, a, b);
  }

  /** Every two cells of the grid are joined by a trail. */
  ghost predicate Spans(g: Grid)
    requires Valid(g)
  {
    forall x, y :: 0 <= x < Size(g) && 0 <= y < Size(g) ==> Reachable(g, x, y)
  }

  /** A cell that reaches every cell, and that every cell reaches, joins
      every two cells. */
  lemma HubSpans(g: Grid, hub: nat)
    requires Valid(g) && hub < Size(g)
    requires forall x :: 0 <= x < Size(g) ==> Reachable(g, x, hub) && Reachable(g, hub, x)
    ensures Spans(g)
  {
    forall x, y | 0 <= x < Size(g) && 0 <= y < Size(g) ensures Reachable(g, x, y) {
      ReachTrans(g, x, hub, y);
    }
  }
}
