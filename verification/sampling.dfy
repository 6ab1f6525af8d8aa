/** The snapshot sampling rule shared by the generators: a snapshot after
    every SKIP-th counted step, and one unconditionally at the end. */
module Sampling {
  import opened Arena
  import opened Snapshots

  /** Snapshots are recorded on counter values 0, SKIP, 2 * SKIP, ... */
  const SKIP: nat := 10

  /** A generator's state: the grid, the step counter `n`, and the snapshot
      history `states` appended to so far. */
  datatype Run = Run(grid: Grid, counter: nat, states: seq<Snapshot>)

  /** After a counted step that left the grid g: a snapshot of g is kept
      when the counter, before it is incremented, is a multiple of SKIP. */
  function Tick(run: Run, g: Grid): (r: Run)
    requires Valid(g)
    ensures r.grid == g && r.counter == run.counter + 1
  {
    var states := if run.counter % SKIP == 0 then run.states + [CreateSnapshot(g)] else run.states;
    Run(g, run.counter + 1, states)
  }

  /** A tick keeps the history and appends the snapshot of g exactly when the
      counter before it is a multiple of SKIP. */
  lemma TickSnapshots(run: Run, g: Grid)
    requires Valid(g)
    ensures |Tick(run, g).states| == |run.states| + (if run.counter % SKIP == 0 then 1 else 0)
    ensures Tick(run, g).states[..|run.states|] == run.states
    ensures run.counter % SKIP == 0 ==> Tick(run, g).states[|run.states|] == CreateSnapshot(g)
  {
  }

  /** The number of counter values below k at which a snapshot is taken. */
  function Sampled(k: nat): (r: nat) {
    if k == 0 then 0 else Sampled(k - 1) + (if (k - 1) % SKIP == 0 then 1 else 0)
  }

  /** Exactly the multiples of SKIP below k are sampled, so the first counted
      step always takes a snapshot. */
  lemma {:induction false} SampledCount(k: nat)
    ensures Sampled(k) == (k + SKIP - 1) / SKIP
  {
    if k > 0 {
      SampledCount(k - 1);
    }
  }

  /** Snapshot accounting holds: the history is the caller's `states`
      followed by one snapshot per sampled counter value. */
  ghost predicate Accounted(run: Run, states: seq<Snapshot>) {
    && |states| <= |run.states|
    && run.states[..|states|] == states
    && |run.states| == |states| + Sampled(run.counter)
  }

  /** Run b continues run a: it counted at least as far, kept a's history,
      and added one snapshot per sampled counter value in between. */
  ghost predicate Extends(a: Run, b: Run) {
    && a.counter <= b.counter
    && |a.states| <= |b.states|
    && b.states[..|a.states|] == a.states
    && |b.states| + Sampled(a.counter) == |a.states| + Sampled(b.counter)
  }

  lemma TickExtends(run: Run, g: Grid)
    requires Valid(g)
    ensures Extends(run, Tick(run, g))
  {
  }

  lemma ExtendsTrans(a: Run, b: Run, c: Run)
    requires Extends(a, b) && Extends(b, c)
    ensures Extends(a, c)
  {
    assert c.states[..|a.states|] == c.states[..|b.states|][..|a.states|];
  }

  lemma ExtendsAccounted(a: Run, b: Run, states: seq<Snapshot>)
    requires Accounted(a, states) && Extends(a, b)
    ensures Accounted(b, states)
  {
    assert b.states[..|states|] == b.states[..|a.states|][..|states|];
  }

  /** The unconditional final `states.push(grid.createSnapshot())`. */
  function Finish(run: Run): (r: Run)
    requires Valid(run.grid)
    ensures r.grid == run.grid && r.counter == run.counter
    ensures r.states == run.states + [CreateSnapshot(run.grid)]
  {
    run.(states := run.states + [CreateSnapshot(run.grid)])
  }

  /** A finished history: the caller's states, one snapshot per sampled
      counter value, and a last entry showing the finished grid. */
  ghost predicate Finished(r: Run, states: seq<Snapshot>)
    requires Valid(r.grid)
  {
    && |r.states| == |states| + Sampled(r.counter) + 1
    && r.states[..|states|] == states
    && r.states[|r.states| - 1] == CreateSnapshot(r.grid)
  }

  lemma FinishFinished(run: Run, states: seq<Snapshot>)
    requires Valid(run.grid) && Accounted(run, states)
    ensures Finished(Finish(run), states)
  {
    var r := Finish(run);
    assert r.states[..|states|] == run.states[..|states|];
  }
}
