/** `findPath`: breadth-first search over the linked grid from `start`,
    recording each discovered cell's parent in a `CellMap`, then unwinding
    the parents from `end`. */
module Pathfinding {
  import opened Wrappers
  import opened Arena
  import opened Cell
  import opened Walks

  // Sequences

  ghost predicate Distinct(xs: seq<nat>) {
    forall i, j :: 0 <= i < j < |xs| ==> xs[i] != xs[j]
  }

  /** The position of the first occurrence of x. */
  function IndexOf(xs: seq<nat>, x: nat): (k: nat)
    requires x in xs
    ensures k < |xs| && xs[k] == x
    ensures forall i :: 0 <= i < k ==> xs[i] != x
  {
    if xs[0] == x then 0 else IndexOf(xs[1..], x) + 1
  }

  lemma IndexOfDistinct(xs: seq<nat>, k: nat)
    requires Distinct(xs) && k < |xs|
    ensures IndexOf(xs, xs[k]) == k
  {
  }

  lemma IndexOfAppend(xs: seq<nat>, ys: seq<nat>, x: nat)
    requires x in xs + ys
    ensures x in xs ==> IndexOf(xs + ys, x) == IndexOf(xs, x)
    ensures x !in xs ==> IndexOf(xs + ys, x) >= |xs|
  {
    var k := IndexOf(xs + ys, x);
    if x in xs {
      var j := IndexOf(xs, x);
      assert (xs + ys)[j] == x;
    }
  }

  // The search state

  /** `seen` lists every cell ever enqueued, in order; the queue is
      `seen[head..]`, so dequeuing advances `head` and enqueuing appends to
      `seen`. `parent` is the `CellMap`, with `None` for the root's null
      parent. */
  datatype Search = Search(seen: seq<nat>, head: nat, parent: CellMap<Option<nat>>)

  ghost predicate Wf(g: Grid, s: Search)
    requires Valid(g)
  {
    s.head <= |s.seen| && InGrid(g, s.seen)
  }

  /** Every listed cell is a cell of the grid. */
  ghost predicate InGrid(g: Grid, xs: seq<nat>)
    requires Valid(g)
  {
    forall k :: 0 <= k < |xs| ==> xs[k] < Size(g)
  }

  /** The neighbours of `current` it is linked to and that have no parent
      yet, among xs, in the order of xs. */
  function Fresh(g: Grid, parent: CellMap<Option<nat>>, current: nat, xs: seq<nat>): (r: seq<nat>)
    requires Valid(g) && current < Size(g) && forall k :: 0 <= k < |xs| ==> xs[k] < Size(g)
    ensures forall k :: 0 <= k < |r| ==> r[k] < Size(g)
    ensures forall n :: n in r <==> n in xs && n in g.links[current] && !MapHas(Shape(g), parent, n)
    ensures Distinct(xs) ==> Distinct(r)
  {
    if |xs| == 0 then []
    else
      var rest := Fresh(g, parent, current, xs[1..]);
      if HasLink(g, current, Some(xs[0])) && !MapHas(Shape(g), parent, xs[0]) then [xs[0]] + rest else rest
  }

  /** The cells `current` discovers: its linked neighbours without a parent. */
  function Discover(g: Grid, parent: CellMap<Option<nat>>, current: nat): (r: seq<nat>)
    requires Valid(g) && current < Size(g)
    ensures forall k :: 0 <= k < |r| ==> r[k] < Size(g)
    ensures forall n :: n in r <==> Move(g, current, n) && !MapHas(Shape(g), parent, n)
    ensures Distinct(r)
  {
    NeighborsAreDistinct(Shape(g), current);
    Fresh(g, parent, current, Neighbors(Shape(g), current))
  }

  /** Records `current` as the parent of every cell in news. */
  function Adopt(d: Dims, parent: CellMap<Option<nat>>, news: seq<nat>, current: nat): (r: CellMap<Option<nat>>)
    requires forall k :: 0 <= k < |news| ==> news[k] < Area(d)
    ensures forall c :: 0 <= c < Area(d) ==> MapGet(d, r, c) == if c in news then Some(Some(current)) else MapGet(d, parent, c)
    decreases |news|
  {
    if |news| == 0 then parent
    else Adopt(d, MapSet(d, parent, news[0], Some(current)), news[1..], current)
  }

  /** Enqueue and adopt what `current` discovers. */
  function Expand(g: Grid, s: Search, current: nat): (r: Search)
    requires Valid(g) && Wf(g, s) && current < Size(g)
    ensures Wf(g, r)
  {
    var news := Discover(g, s.parent, current);
    Search(s.seen + news, s.head, Adopt(Shape(g), s.parent, news, current))
  }

  /** The cells that have no parent. */
  ghost function Orphans(g: Grid, parent: CellMap<Option<nat>>): (r: set<nat>)
    requires Valid(g)
  {
    set c | 0 <= c < Size(g) && !MapHas(Shape(g), parent, c)
  }

  /** Expanding adopts the discovered cells, so the orphans shrink unless
      nothing was discovered. */
  lemma ExpandShrinks(g: Grid, s: Search, current: nat)
    requires Valid(g) && Wf(g, s) && current < Size(g)
    ensures var r := Expand(g, s, current);
      || |Orphans(g, r.parent)| < |Orphans(g, s.parent)|
      || (r.parent == s.parent && r.seen == s.seen && r.head == s.head)
  {
    var d := Shape(g);
    var news := Discover(g, s.parent, current);
    var r := Expand(g, s, current);
    if |news| == 0 {
      assert s.seen + news == s.seen;
    } else {
      var o, o' := Orphans(g, s.parent), Orphans(g, r.parent);
      var n := news[0];
      assert n in o;
      forall c | c in o' ensures c in o - {n} {
        assert MapGet(d, r.parent, c) == MapGet(d, s.parent, c);
      }
      var rest := o - {n};
      assert o' == rest - (rest - o');
      assert o * {n} == {n};
    }
  }

  /** The search loop, run while the queue is not empty: dequeue, stop at
      `end`, otherwise expand. */
  function Explore(g: Grid, end: nat, s: Search): (r: Search)
    requires Valid(g) && end < Size(g) && Wf(g, s)
    ensures Wf(g, r)
    ensures |s.seen| > 0 ==> |r.seen| > 0 && r.seen[0] == s.seen[0]
    ensures Sound(g, s) ==> Tree(g, r.seen, r.parent) && Monotone(g, r.seen, r.parent) && Done(g, end, r)
    decreases |Orphans(g, s.parent)|, |s.seen| - s.head
  {
    if s.head == |s.seen| then s
    else
      var current := s.seen[s.head];
      var shifted := s.(head := s.head + 1);
      if Equals(Shape(g), current, Some(end)) then
        StopSound(g, s);
        shifted
      else
        ExpandShrinks(g, shifted, current);
        StepSound(g, s);
        Explore(g, end, Next(g, s))
  }

  /** The parent chain from node: collect node, move to its recorded parent,
      and repeat while there is a node. The chain stops at a missing entry or at `null`;
      the test that the parent was enqueued before the child always holds
      for the parents a search records (`TreeUnwind`) and only makes the
      termination evident. */
  function Unwind(d: Dims, seen: seq<nat>, parent: CellMap<Option<nat>>, node: nat): (path: seq<nat>)
    requires node < Area(d)
    ensures |path| > 0 && path[0] == node
    decreases if node in seen then IndexOf(seen, node) + 1 else 0
  {
    match MapGet<Option<nat>>(d, parent, node)
    case Some(Some(p)) =>
      if p < Area(d) && node in seen && p in seen && IndexOf(seen, p) < IndexOf(seen, node)
      then [node] + Unwind(d, seen, parent, p)
      else [node]
    case _ => [node]
  }

  /** The search's initial state: only `start` is queued, with a null parent. */
  function Begin(g: Grid, start: nat): (s: Search)
    requires Valid(g) && start < Size(g)
    ensures Wf(g, s)
  {
    Search([start], 0, MapSet(Shape(g), map[], start, None))
  }

  /** `findPath(start, end)`: the cells from `end` back to `start`, linked
      move by move. It reaches `start` exactly when `end` is reachable, is
      `[end]` alone otherwise, and no trail between them is shorter. */
  function FindPath(g: Grid, start: nat, end: nat): (path: seq<nat>)
    requires Valid(g) && start < Size(g) && end < Size(g)
    ensures |path| > 0 && path[0] == end && Trail(g, path)
    ensures Reachable(g, start, end) <==> path[|path| - 1] == start
    ensures !Reachable(g, start, end) ==> path == [end]
    ensures forall p :: TrailBetween(g, p, start, end) ==> |path| <= |p|
  {
    var s := Explore(g, end, Begin(g, start));
    Finished(g, start, end);
    Unwind(Shape(g), s.seen, s.parent, end)
  }

  // The search invariant. It speaks of the enqueued cells and the parent
  // map only, so dequeuing, which moves `head` alone, leaves it untouched.

  /** The number of parent steps from x back to the root. */
  ghost function Level(g: Grid, seen: seq<nat>, parent: CellMap<Option<nat>>, x: nat): (r: nat)
    requires Valid(g) && x < Size(g)
  {
    |Unwind(Shape(g), seen, parent, x)| - 1
  }

  /** The parent recorded for seen[k] was enqueued before it and reaches it
      by a move. */
  ghost predicate ParentOk(g: Grid, seen: seq<nat>, parent: CellMap<Option<nat>>, k: nat)
    requires Valid(g) && InGrid(g, seen) && k < |seen|
  {
    var e := MapGet(Shape(g), parent, seen[k]);
    e.Some? && e.value.Some? && e.value.value in seen[..k] && Move(g, e.value.value, seen[k])
  }

  /** A cell has a parent entry exactly when it has been enqueued. */
  ghost predicate Registered(g: Grid, seen: seq<nat>, parent: CellMap<Option<nat>>)
    requires Valid(g)
  {
    forall c :: 0 <= c < Size(g) ==> (MapHas(Shape(g), parent, c) <==> c in seen)
  }

  /** The search tree: the root comes first and has the `null` parent; no
      cell is enqueued twice; every other enqueued cell has an earlier
      parent. */
  ghost predicate Tree(g: Grid, seen: seq<nat>, parent: CellMap<Option<nat>>)
    requires Valid(g) && InGrid(g, seen)
  {
    && |seen| > 0
    && MapGet(Shape(g), parent, seen[0]) == Some(None)
    && Distinct(seen)
    && Registered(g, seen, parent)
    && (forall k :: 0 < k < |seen| ==> ParentOk(g, seen, parent, k))
  }

  /** Levels never decrease along the enqueued cells. */
  ghost predicate Monotone(g: Grid, seen: seq<nat>, parent: CellMap<Option<nat>>)
    requires Valid(g) && InGrid(g, seen)
  {
    forall i, j :: 0 <= i <= j < |seen| ==> Level(g, seen, parent, seen[i]) <= Level(g, seen, parent, seen[j])
  }

  /** The queue `seen[head..]` spans at most two consecutive levels. */
  ghost predicate Spread(g: Grid, seen: seq<nat>, parent: CellMap<Option<nat>>, head: nat)
    requires Valid(g) && InGrid(g, seen)
  {
    head < |seen| ==> Level(g, seen, parent, seen[|seen| - 1]) <= Level(g, seen, parent, seen[head]) + 1
  }

  /** The first m enqueued cells are expanded: every move from one of them
      leads to an enqueued cell at most one level further. */
  ghost predicate Expanded(g: Grid, seen: seq<nat>, parent: CellMap<Option<nat>>, m: nat)
    requires Valid(g) && InGrid(g, seen) && m <= |seen|
  {
    forall k, y :: 0 <= k < m && Move(g, seen[k], y) ==> y in seen && Level(g, seen, parent, y) <= Level(g, seen, parent, seen[k]) + 1
  }

  /** The loop has ended: the queue ran empty with every cell expanded, or
      `end` was dequeued with every earlier cell expanded. */
  ghost predicate Done(g: Grid, end: nat, s: Search)
    requires Valid(g) && Wf(g, s)
  {
    || (s.head == |s.seen| && Expanded(g, s.seen, s.parent, s.head))
    || (0 < s.head && s.seen[s.head - 1] == end && Expanded(g, s.seen, s.parent, s.head - 1))
  }

  /** The invariant of the `while` loop. */
  ghost predicate Sound(g: Grid, s: Search)
    requires Valid(g)
  {
    && Wf(g, s)
    && Tree(g, s.seen, s.parent)
    && Monotone(g, s.seen, s.parent)
    && Spread(g, s.seen, s.parent, s.head)
    && Expanded(g, s.seen, s.parent, s.head)
  }

  lemma BeginSound(g: Grid, start: nat)
    requires Valid(g) && start < Size(g)
    ensures Sound(g, Begin(g, start)) && Begin(g, start).seen[0] == start
  {
    var s := Begin(g, start);
    var d := Shape(g);
    forall c | 0 <= c < Size(g) ensures MapHas(d, s.parent, c) <==> c in s.seen {
      if c != start {
        assert MapGet(d, s.parent, c) == MapGet(d, map[], c);
      }
    }
  }

  // Unwinding

  /** Unwinding a cell already enqueued is unaffected by enqueuing more
      cells and adding parents for them. */
  lemma {:induction false} UnwindStable(d: Dims, seen: seq<nat>, extra: seq<nat>, parent: CellMap<Option<nat>>, parent': CellMap<Option<nat>>, x: nat)
    requires x < Area(d) && x in seen
    requires forall k :: 0 <= k < |seen| ==> seen[k] < Area(d) && MapGet(d, parent', seen[k]) == MapGet(d, parent, seen[k])
    ensures Unwind(d, seen + extra, parent', x) == Unwind(d, seen, parent, x)
    decreases IndexOf(seen, x)
  {
    var seen' := seen + extra;
    IndexOfAppend(seen, extra, x);
    var e := MapGet(d, parent, x);
    assert MapGet(d, parent', x) == e by {
      assert seen[IndexOf(seen, x)] == x;
    }
    if e.Some? && e.value.Some? {
      var p := e.value.value;
      if p in seen' {
        IndexOfAppend(seen, extra, p);
      }
      if p < Area(d) && p in seen && IndexOf(seen, p) < IndexOf(seen, x) {
        UnwindStable(d, seen, extra, parent, parent', p);
      }
    }
  }

  /** Unwinding a cell enqueued after its parent c goes on through c. */
  lemma UnwindAdopted(d: Dims, seen: seq<nat>, parent: CellMap<Option<nat>>, n: nat, c: nat)
    requires n < Area(d) && c < Area(d) && n in seen && c in seen && IndexOf(seen, c) < IndexOf(seen, n)
    requires MapGet(d, parent, n) == Some(Some(c))
    ensures Unwind(d, seen, parent, n) == [n] + Unwind(d, seen, parent, c)
  {
  }

  /** In the search tree every enqueued cell unwinds to a trail from the
      root. */
  lemma {:induction false} TreeUnwind(g: Grid, seen: seq<nat>, parent: CellMap<Option<nat>>, x: nat)
    requires Valid(g) && InGrid(g, seen) && Tree(g, seen, parent) && x in seen
    ensures TrailBetween(g, Unwind(Shape(g), seen, parent, x), seen[0], x)
    decreases IndexOf(seen, x)
  {
    var d := Shape(g);
    var k := IndexOf(seen, x);
    if k > 0 {
      assert ParentOk(g, seen, parent, k);
      var p := MapGet(d, parent, x).value.value;
      var i :| 0 <= i < k && seen[i] == p;
      TreeUnwind(g, seen, parent, p);
      var u := Unwind(d, seen, parent, p);
      assert Unwind(d, seen, parent, x) == [x] + u;
      assert Trail(g, [x] + u) by {
        var w := [x] + u;
        forall i | 0 <= i < |w| - 1 ensures Move(g, w[i + 1], w[i]) {
          if i > 0 {
            assert w[i + 1] == u[i] && w[i] == u[i - 1];
          }
        }
      }
    } else {
      IndexOfDistinct(seen, 0);
    }
  }

  // One turn of the loop

  /** The state after dequeuing and expanding the head of the queue. */
  function Next(g: Grid, s: Search): (r: Search)
    requires Valid(g) && Wf(g, s) && s.head < |s.seen|
    ensures Wf(g, r) && r.head == s.head + 1
    ensures r.seen == s.seen + Discover(g, s.parent, s.seen[s.head])
  {
    Expand(g, s.(head := s.head + 1), s.seen[s.head])
  }

  /** Dequeuing keeps the queue within two levels. */
  lemma StopSound(g: Grid, s: Search)
    requires Valid(g) && Wf(g, s) && s.head < |s.seen|
    ensures Sound(g, s) ==> Spread(g, s.seen, s.parent, s.head + 1)
  {
    if Sound(g, s) && s.head + 1 < |s.seen| {
      assert Level(g, s.seen, s.parent, s.seen[s.head]) <= Level(g, s.seen, s.parent, s.seen[s.head + 1]);
    }
  }

  /** The cells the head discovers were not enqueued before. */
  lemma NewsAreNew(g: Grid, s: Search, n: nat)
    requires Valid(g) && Wf(g, s) && Registered(g, s.seen, s.parent) && s.head < |s.seen|
    requires n in Discover(g, s.parent, s.seen[s.head])
    ensures n !in s.seen
  {
  }

  /** Enqueued cells keep their entry when the head is expanded. */
  lemma EntriesKept(g: Grid, s: Search)
    requires Valid(g) && Wf(g, s) && Registered(g, s.seen, s.parent) && s.head < |s.seen|
    ensures forall k :: 0 <= k < |s.seen| ==>
      MapGet(Shape(g), Next(g, s).parent, s.seen[k]) == MapGet(Shape(g), s.parent, s.seen[k])
  {
    var news := Discover(g, s.parent, s.seen[s.head]);
    forall k | 0 <= k < |s.seen|
      ensures MapGet(Shape(g), Next(g, s).parent, s.seen[k]) == MapGet(Shape(g), s.parent, s.seen[k])
    {
      if s.seen[k] in news {
        NewsAreNew(g, s, s.seen[k]);
      }
    }
  }

  /** Enqueued cells keep their level when the head is expanded. */
  lemma LevelKept(g: Grid, s: Search, x: nat)
    requires Valid(g) && Wf(g, s) && Registered(g, s.seen, s.parent) && s.head < |s.seen| && x in s.seen
    ensures Level(g, Next(g, s).seen, Next(g, s).parent, x) == Level(g, s.seen, s.parent, x)
  {
    var r := Next(g, s);
    var news := Discover(g, s.parent, s.seen[s.head]);
    EntriesKept(g, s);
    UnwindStable(Shape(g), s.seen, news, s.parent, r.parent, x);
  }

  /** A cell the head discovers is one level below the head. */
  lemma LevelNew(g: Grid, s: Search, n: nat)
    requires Valid(g) && Wf(g, s) && Registered(g, s.seen, s.parent) && s.head < |s.seen|
    requires n in Discover(g, s.parent, s.seen[s.head])
    ensures n < Size(g)
    ensures Level(g, Next(g, s).seen, Next(g, s).parent, n) == Level(g, s.seen, s.parent, s.seen[s.head]) + 1
  {
    var r := Next(g, s);
    var c := s.seen[s.head];
    var news := Discover(g, s.parent, c);
    NewsAreNew(g, s, n);
    IndexOfAppend(s.seen, news, c);
    IndexOfAppend(s.seen, news, n);
    UnwindAdopted(Shape(g), r.seen, r.parent, n, c);
    LevelKept(g, s, c);
  }

  /** The levels after expanding the head: old cells keep theirs, new cells
      are one below the head. */
  lemma NextLevels(g: Grid, s: Search)
    requires Valid(g) && Wf(g, s) && Registered(g, s.seen, s.parent) && s.head < |s.seen|
    ensures var r := Next(g, s);
      forall i :: 0 <= i < |r.seen| ==>
        (Level(g, r.seen, r.parent, r.seen[i]) ==
         if i < |s.seen| then Level(g, s.seen, s.parent, s.seen[i])
         else Level(g, s.seen, s.parent, s.seen[s.head]) + 1)
  {
    var r := Next(g, s);
    forall i | 0 <= i < |r.seen|
      ensures Level(g, r.seen, r.parent, r.seen[i]) ==
        if i < |s.seen| then Level(g, s.seen, s.parent, s.seen[i])
        else Level(g, s.seen, s.parent, s.seen[s.head]) + 1
    {
      if i < |s.seen| {
        LevelKept(g, s, s.seen[i]);
      } else {
        LevelNew(g, s, r.seen[i]);
      }
    }
  }

  lemma StepDistinct(g: Grid, s: Search)
    requires Valid(g) && Wf(g, s) && Distinct(s.seen) && Registered(g, s.seen, s.parent) && s.head < |s.seen|
    ensures Distinct(Next(g, s).seen)
  {
    var r := Next(g, s);
    var news := Discover(g, s.parent, s.seen[s.head]);
    forall i, j | 0 <= i < j < |r.seen| ensures r.seen[i] != r.seen[j] {
      if j >= |s.seen| && i < |s.seen| {
        assert r.seen[j] in news;
        NewsAreNew(g, s, r.seen[j]);
      }
    }
  }

  lemma StepRegistered(g: Grid, s: Search)
    requires Valid(g) && Wf(g, s) && Registered(g, s.seen, s.parent) && s.head < |s.seen|
    ensures Registered(g, Next(g, s).seen, Next(g, s).parent)
  {
  }

  lemma ParentKept(g: Grid, s: Search, k: nat)
    requires Valid(g) && Wf(g, s) && Registered(g, s.seen, s.parent) && s.head < |s.seen|
    requires 0 < k < |s.seen| && ParentOk(g, s.seen, s.parent, k)
    ensures ParentOk(g, Next(g, s).seen, Next(g, s).parent, k)
  {
    var r := Next(g, s);
    EntriesKept(g, s);
    assert s.seen[..k] == r.seen[..k];
  }

  lemma ParentNew(g: Grid, s: Search, k: nat)
    requires Valid(g) && Wf(g, s) && s.head < |s.seen|
    requires |s.seen| <= k < |Next(g, s).seen|
    ensures ParentOk(g, Next(g, s).seen, Next(g, s).parent, k)
  {
    var r := Next(g, s);
    assert r.seen[k] in Discover(g, s.parent, s.seen[s.head]);
    assert r.seen[s.head] == s.seen[s.head];
  }

  lemma StepParents(g: Grid, s: Search)
    requires Valid(g) && Wf(g, s) && Tree(g, s.seen, s.parent) && s.head < |s.seen|
    ensures var r := Next(g, s);
      forall k :: 0 < k < |r.seen| ==> ParentOk(g, r.seen, r.parent, k)
  {
    var r := Next(g, s);
    forall k | 0 < k < |r.seen| ensures ParentOk(g, r.seen, r.parent, k) {
      if k < |s.seen| {
        ParentKept(g, s, k);
      } else {
        ParentNew(g, s, k);
      }
    }
  }

  lemma StepTree(g: Grid, s: Search)
    requires Valid(g) && Wf(g, s) && Tree(g, s.seen, s.parent) && s.head < |s.seen|
    ensures Tree(g, Next(g, s).seen, Next(g, s).parent)
  {
    EntriesKept(g, s);
    StepDistinct(g, s);
    StepRegistered(g, s);
    StepParents(g, s);
  }

  lemma StepMonotone(g: Grid, s: Search)
    requires Valid(g) && Wf(g, s) && Registered(g, s.seen, s.parent) && s.head < |s.seen|
    requires Monotone(g, s.seen, s.parent) && Spread(g, s.seen, s.parent, s.head)
    ensures Monotone(g, Next(g, s).seen, Next(g, s).parent)
  {
    var r := Next(g, s);
    NextLevels(g, s);
    forall i, j | 0 <= i <= j < |r.seen|
      ensures Level(g, r.seen, r.parent, r.seen[i]) <= Level(g, r.seen, r.parent, r.seen[j])
    {
      if i < |s.seen| <= j {
        assert Level(g, s.seen, s.parent, s.seen[i]) <= Level(g, s.seen, s.parent, s.seen[|s.seen| - 1]);
      }
    }
  }

  lemma StepSpread(g: Grid, s: Search)
    requires Valid(g) && Wf(g, s) && Registered(g, s.seen, s.parent) && s.head < |s.seen|
    requires Monotone(g, s.seen, s.parent) && Spread(g, s.seen, s.parent, s.head)
    ensures Spread(g, Next(g, s).seen, Next(g, s).parent, s.head + 1)
  {
    NextLevels(g, s);
  }

  /** A move from an already expanded cell still lands within one level. */
  lemma ExpandedOld(g: Grid, s: Search, k: nat, y: nat)
    requires Valid(g) && Wf(g, s) && Registered(g, s.seen, s.parent) && s.head < |s.seen|
    requires k < |s.seen| && y in s.seen && y < Size(g)
    requires Level(g, s.seen, s.parent, y) <= Level(g, s.seen, s.parent, s.seen[k]) + 1
    ensures var r := Next(g, s);
      y in r.seen && Level(g, r.seen, r.parent, y) <= Level(g, r.seen, r.parent, s.seen[k]) + 1
  {
    LevelKept(g, s, s.seen[k]);
    LevelKept(g, s, y);
  }

  /** A move from the head lands on an old cell within one level, or on a
      cell it discovers one level down. */
  lemma ExpandedHead(g: Grid, s: Search, y: nat)
    requires Valid(g) && Wf(g, s) && Registered(g, s.seen, s.parent) && s.head < |s.seen|
    requires Move(g, s.seen[s.head], y)
    requires y in s.seen ==> Level(g, s.seen, s.parent, y) <= Level(g, s.seen, s.parent, s.seen[s.head]) + 1
    ensures var r := Next(g, s);
      y in r.seen && Level(g, r.seen, r.parent, y) <= Level(g, r.seen, r.parent, s.seen[s.head]) + 1
  {
    LevelKept(g, s, s.seen[s.head]);
    if y in s.seen {
      LevelKept(g, s, y);
    } else {
      LevelNew(g, s, y);
    }
  }

  /** No enqueued cell lies more than one level below the head. */
  lemma QueueBound(g: Grid, seen: seq<nat>, parent: CellMap<Option<nat>>, head: nat, i: nat)
    requires Valid(g) && InGrid(g, seen) && head < |seen| && i < |seen|
    requires Monotone(g, seen, parent) && Spread(g, seen, parent, head)
    ensures Level(g, seen, parent, seen[i]) <= Level(g, seen, parent, seen[head]) + 1
  {
    assert Level(g, seen, parent, seen[i]) <= Level(g, seen, parent, seen[|seen| - 1]);
  }

  /** No enqueued cell lies more than one level below the head. */
  ghost predicate Capped(g: Grid, seen: seq<nat>, parent: CellMap<Option<nat>>, head: nat)
    requires Valid(g) && InGrid(g, seen) && head < |seen|
  {
    forall i :: 0 <= i < |seen| ==> Level(g, seen, parent, seen[i]) <= Level(g, seen, parent, seen[head]) + 1
  }

  lemma LayeredCapped(g: Grid, seen: seq<nat>, parent: CellMap<Option<nat>>, head: nat)
    requires Valid(g) && InGrid(g, seen) && head < |seen|
    requires Monotone(g, seen, parent) && Spread(g, seen, parent, head)
    ensures Capped(g, seen, parent, head)
  {
    forall i | 0 <= i < |seen| ensures Level(g, seen, parent, seen[i]) <= Level(g, seen, parent, seen[head]) + 1 {
      QueueBound(g, seen, parent, head, i);
    }
  }

  /** One move out of the first head + 1 cells after expanding the head. */
  lemma ExpandedAt(g: Grid, s: Search, k: nat, y: nat)
    requires Valid(g) && Wf(g, s) && Registered(g, s.seen, s.parent) && s.head < |s.seen|
    requires k <= s.head && Move(g, s.seen[k], y)
    requires k < s.head ==> y in s.seen && Level(g, s.seen, s.parent, y) <= Level(g, s.seen, s.parent, s.seen[k]) + 1
    requires k == s.head && y in s.seen ==> Level(g, s.seen, s.parent, y) <= Level(g, s.seen, s.parent, s.seen[s.head]) + 1
    ensures var r := Next(g, s);
      y in r.seen && Level(g, r.seen, r.parent, y) <= Level(g, r.seen, r.parent, s.seen[k]) + 1
  {
    if k < s.head {
      ExpandedOld(g, s, k, y);
    } else {
      ExpandedHead(g, s, y);
    }
  }

  lemma StepExpanded(g: Grid, s: Search)
    requires Valid(g) && Wf(g, s) && Registered(g, s.seen, s.parent) && s.head < |s.seen|
    requires Capped(g, s.seen, s.parent, s.head) && Expanded(g, s.seen, s.parent, s.head)
    ensures Expanded(g, Next(g, s).seen, Next(g, s).parent, s.head + 1)
  {
    var r := Next(g, s);
    forall k, y | 0 <= k < s.head + 1 && Move(g, r.seen[k], y)
      ensures y in r.seen && Level(g, r.seen, r.parent, y) <= Level(g, r.seen, r.parent, r.seen[k]) + 1
    {
      assert r.seen[k] == s.seen[k];
      if y in s.seen {
        assert s.seen[IndexOf(s.seen, y)] == y;
      }
      ExpandedAt(g, s, k, y);
    }
  }

  /** Expanding the head keeps the loop invariant. */
  lemma StepSound(g: Grid, s: Search)
    requires Valid(g) && Wf(g, s) && s.head < |s.seen|
    ensures Sound(g, s) ==> Sound(g, Next(g, s))
  {
    if Sound(g, s) {
      StepTree(g, s);
      StepMonotone(g, s);
      StepSpread(g, s);
      LayeredCapped(g, s.seen, s.parent, s.head);
      StepExpanded(g, s);
    }
  }

  // What the finished search gives

  /** Walking a trail backwards from the root, every cell on it is enqueued
      no deeper than its distance from the root, as long as the cells it
      passes through were expanded: those below index m, given that every
      cell from m on is at least `bound` deep and the trail is shorter. */
  lemma {:induction false} RouteLevels(g: Grid, seen: seq<nat>, parent: CellMap<Option<nat>>, p: seq<nat>, m: nat, bound: nat, j: nat)
    requires Valid(g) && InGrid(g, seen) && m <= |seen| && Expanded(g, seen, parent, m)
    requires |seen| > 0 && Level(g, seen, parent, seen[0]) == 0
    requires Trail(g, p) && p[|p| - 1] == seen[0] && j < |p| && |p| <= bound
    requires forall i :: m <= i < |seen| ==> bound <= Level(g, seen, parent, seen[i])
    ensures p[j] in seen && Level(g, seen, parent, p[j]) <= |p| - 1 - j
    decreases |p| - j
  {
    if j < |p| - 1 {
      RouteLevels(g, seen, parent, p, m, bound, j + 1);
      var i := IndexOf(seen, p[j + 1]);
      assert Move(g, seen[i], p[j]);
    }
  }

  /** Any trail from the root to `end` means `end` was enqueued, at a level
      no greater than the trail's number of moves. */
  lemma EndFound(g: Grid, s: Search, end: nat, p: seq<nat>)
    requires Valid(g) && end < Size(g) && Wf(g, s) && Tree(g, s.seen, s.parent) && Monotone(g, s.seen, s.parent)
    requires Done(g, end, s)
    ensures TrailBetween(g, p, s.seen[0], end) ==> end in s.seen && Level(g, s.seen, s.parent, end) <= |p| - 1
  {
    if TrailBetween(g, p, s.seen[0], end) {
      assert Level(g, s.seen, s.parent, s.seen[0]) == 0;
      if s.head == |s.seen| && Expanded(g, s.seen, s.parent, s.head) {
        RouteLevels(g, s.seen, s.parent, p, s.head, |p|, 0);
      } else if Level(g, s.seen, s.parent, end) >= |p| {
        var m := s.head - 1;
        assert forall i :: m <= i < |s.seen| ==> Level(g, s.seen, s.parent, s.seen[m]) <= Level(g, s.seen, s.parent, s.seen[i]);
        RouteLevels(g, s.seen, s.parent, p, m, Level(g, s.seen, s.parent, end), 0);
      }
    }
  }

  /** The unwound path of a finished search from `start`. */
  lemma Outcome(g: Grid, start: nat, end: nat, s: Search)
    requires Valid(g) && start < Size(g) && end < Size(g) && Wf(g, s)
    requires Tree(g, s.seen, s.parent) && Monotone(g, s.seen, s.parent) && Done(g, end, s) && s.seen[0] == start
    ensures var path := Unwind(Shape(g), s.seen, s.parent, end);
      && path[0] == end && Trail(g, path)
      && (Reachable(g, start, end) <==> path[|path| - 1] == start)
      && (!Reachable(g, start, end) ==> path == [end])
      && (forall p :: TrailBetween(g, p, start, end) ==> |path| <= |p|)
  {
    var path := Unwind(Shape(g), s.seen, s.parent, end);
    forall p ensures TrailBetween(g, p, start, end) ==> end in s.seen && Level(g, s.seen, s.parent, end) <= |p| - 1 {
      EndFound(g, s, end, p);
    }
    if end in s.seen {
      TreeUnwind(g, s.seen, s.parent, end);
      assert TrailBetween(g, path, start, end);
    } else {
      assert path == [end];
    }
  }

  /** The search the way `findPath` runs it ends sound. */
  lemma Finished(g: Grid, start: nat, end: nat)
    requires Valid(g) && start < Size(g) && end < Size(g)
    ensures var s := Explore(g, end, Begin(g, start));
      var path := Unwind(Shape(g), s.seen, s.parent, end);
      && |path| > 0 && path[0] == end && Trail(g, path)
      && (Reachable(g, start, end) <==> path[|path| - 1] == start)
      && (!Reachable(g, start, end) ==> path == [end])
      && (forall p :: TrailBetween(g, p, start, end) ==> |path| <= |p|)
  {
    BeginSound(g, start);
    var s := Explore(g, end, Begin(g, start));
    Outcome(g, start, end, s);
  }

  /** A search from a cell for itself stops at once: the path is the cell
      alone. */
  lemma FindPathToItself(g: Grid, a: nat)
    requires Valid(g) && a < Size(g)
    ensures FindPath(g, a, a) == [a]
  {
    assert TrailBetween(g, [a], a, a);
  }

  /** Every cell is enqueued at most once, and a cell has a parent entry
      exactly when it was enqueued; the search starts from `start`. */
  lemma VisitsOnce(g: Grid, start: nat, end: nat)
    requires Valid(g) && start < Size(g) && end < Size(g)
    ensures var s := Explore(g, end, Begin(g, start));
      && Distinct(s.seen) && s.seen[0] == start
      && forall c :: 0 <= c < Size(g) ==> (MapHas(Shape(g), s.parent, c) <==> c in s.seen)
  {
    BeginSound(g, start);
  }
}
