/** Counting links and linkless cells, the measures the generators are
    reasoned about with. */
module Tally {
  import opened Arena
  import opened Cell

  /** The number of links counted from both ends: twice the number of
      undirected links of a symmetric, loop-free relation. */
  function DegreeSum(s: seq<set<nat>>): (r: nat) {
    if |s| == 0 then 0 else DegreeSum(s[..|s| - 1]) + |s[|s| - 1]|
  }

  lemma {:induction false} DegreeSumUpdate(s: seq<set<nat>>, k: nat, x: set<nat>)
    requires k < |s|
    ensures DegreeSum(s[k := x]) == DegreeSum(s) - |s[k]| + |x|
    decreases |s|
  {
    var t := s[k := x];
    if k < |s| - 1 {
      assert t[..|t| - 1] == s[..|s| - 1][k := x];
      DegreeSumUpdate(s[..|s| - 1], k, x);
    } else {
      assert t[..|t| - 1] == s[..|s| - 1];
    }
  }

  lemma {:induction false} DegreeSumOfEmpty(s: seq<set<nat>>)
    requires forall i :: 0 <= i < |s| ==> s[i] == {}
    ensures DegreeSum(s) == 0
    decreases |s|
  {
    if |s| > 0 {
      DegreeSumOfEmpty(s[..|s| - 1]);
    }
  }

  /** Linking two distinct cells that were not linked adds exactly one
      undirected link. */
  lemma FreshLinkAddsTwo(g: Grid, a: nat, b: nat)
    requires Valid(g) && a < Size(g) && b < Size(g) && a != b
    requires b !in g.links[a] && a !in g.links[b]
    ensures DegreeSum(Link(g, a, b, true).links) == DegreeSum(g.links) + 2
  {
    var s1 := g.links[a := g.links[a] + {b}];
    var s2 := s1[b := s1[b] + {a}];
    var r := Link(g, a, b, true);
    forall x | 0 <= x < |g.links| ensures r.links[x] == s2[x] {
    }
    assert r.links == s2;
    DegreeSumUpdate(g.links, a, g.links[a] + {b});
    DegreeSumUpdate(s1, b, s1[b] + {a});
  }

  /** The cells with no link at all (unvisited, for the walking generators). */
  ghost function Linkless(g: Grid): (r: set<nat>) {
    set i | 0 <= i < |g.links| && g.links[i] == {}
  }

  lemma LinklessAfterLink(g: Grid, a: nat, b: nat)
    requires Valid(g) && a < Size(g) && b < Size(g)
    ensures Linkless(Link(g, a, b, true)) == Linkless(g) - {a, b}
  {
  }

  /** All cell indices below n. */
  ghost function Below(n: nat): (r: set<nat>)
    ensures forall i: nat :: i in r <==> i < n
  {
    if n == 0 then {} else Below(n - 1) + {n - 1}
  }

  lemma {:induction false} BelowSize(n: nat)
    ensures |Below(n)| == n
  {
    if n > 0 {
      BelowSize(n - 1);
    }
  }

  lemma LinklessOfNew(g: Grid)
    requires Valid(g)
    requires forall i :: 0 <= i < Size(g) ==> g.links[i] == {}
    ensures Linkless(g) == Below(Size(g))
    ensures |Linkless(g)| == Size(g)
    ensures DegreeSum(g.links) == 0
  {
    BelowSize(Size(g));
    DegreeSumOfEmpty(g.links);
  }

  /** Every link is an open wall between two neighbouring cells. */
  ghost predicate Passages(g: Grid)
    requires Valid(g)
  {
    forall x: nat, y: nat {:trigger y in g.links[x]} :: x < Size(g) && y in g.links[x] ==> Adjacent(Shape(g), x, y)
  }

  /** Every link is a passage between neighbours, present at both ends. */
  ghost predicate WellLinked(g: Grid)
    requires Valid(g)
  {
    Symmetric(g) && Passages(g)
  }

  lemma LinkKeepsPassages(g: Grid, a: nat, b: nat)
    requires Valid(g) && Passages(g) && a < Size(g) && b < Size(g) && Adjacent(Shape(g), a, b)
    ensures Passages(Link(g, a, b, true))
  {
    NeighbourSymmetry(Shape(g), a, b);
  }

  lemma LinkKeepsWellLinked(g: Grid, a: nat, b: nat)
    requires Valid(g) && WellLinked(g) && a < Size(g) && b < Size(g) && Adjacent(Shape(g), a, b)
    ensures WellLinked(Link(g, a, b, true))
  {
    LinkKeepsSymmetry(g, a, b);
    LinkKeepsPassages(g, a, b);
  }

  /** h has every link g has: links are only ever added. */
  ghost predicate Keeps(g: Grid, h: Grid) {
    && |g.links| == |h.links|
    && forall x, y {:trigger y in g.links[x]} :: 0 <= x < |g.links| && y in g.links[x] ==> y in h.links[x]
  }

  lemma LinkKeeps(g: Grid, a: nat, b: nat)
    requires Valid(g) && a < Size(g) && b < Size(g)
    ensures Keeps(g, Link(g, a, b, true))
  {
  }

  lemma KeepsTrans(g: Grid, h: Grid, k: Grid)
    requires Keeps(g, h) && Keeps(h, k)
    ensures Keeps(g, k)
  {
  }
}
