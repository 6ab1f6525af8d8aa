/** The random choices the generators make, supplied as explicit inputs. */
module Choice {
  import opened Wrappers
  import opened Arena

  /** `randomFromArray`: the random index drawn lies below n, and reading
      an empty array yields undefined. The model receives
      the draw as a number k and uses index k mod n. */
  function RandomFrom<T>(xs: seq<T>, k: nat): (r: Option<T>)
    ensures r.None? <==> |xs| == 0
    ensures r.Some? ==> r.value in xs
  {
    if |xs| == 0 then None else Some(xs[k % |xs|])
  }

  /** No element is out of reach: draw j picks element j. */
  lemma EveryElementCanBeDrawn<T>(xs: seq<T>, j: nat)
    requires j < |xs|
    ensures RandomFrom(xs, j) == Some(xs[j])
  {
  }

  /** `shuffleArray` of the n cells: an ordering listing every cell exactly
      once (n entries, all cells, hence no repeats). */
  ghost predicate IsShuffle(s: seq<nat>, n: nat) {
    && |s| == n
    && (forall i :: 0 <= i < |s| ==> s[i] < n)
    && (forall c :: 0 <= c < n ==> c in s)
  }

  /** `randomCell`: a random cell of the grid, drawn with k, absent exactly
      when the grid has no cells. */
  function RandomCell(g: Grid, k: nat): (r: Option<nat>)
    ensures r.None? <==> Size(g) == 0
    ensures r.Some? ==> r.value < Size(g)
  {
    RandomFrom(Cells(Shape(g)), k)
  }

  /** Every cell can be drawn as the random cell. */
  lemma EveryCellCanBeDrawn(g: Grid, c: nat)
    requires c < Size(g)
    ensures RandomCell(g, c) == Some(c)
  {
  }
}
