/** Deleting expired throttle rows, at any time, changes no answer that a caller gets. */
module ThrottleCleanup {
  import opened Common
  import opened Throttle

  /** No row outlives its own lock. */
  predicate LocksExpireFirst(table: Table) {
    forall d :: d in table && table[d].lockedUntil.Some? ==> table[d].lockedUntil.value <= table[d].expiresAt
  }

  function Live(row: Option<Row>, now: Time): Option<Row> {
    if row.Some? && row.value.expiresAt <= now then None else row
  }

  /** The two tables differ in rows that have expired by `now` at most. */
  ghost predicate SameLiveRows(a: Table, b: Table, now: Time) {
    forall d: Dim :: Live(Find(a, d), now) == Live(Find(b, d), now)
  }

  function WithoutCleanups(run: Run): Run {
    match run
    case Start(_) => run
    case Then(before, Cleanup(_)) => WithoutCleanups(before)
    case Then(before, step) => Then(WithoutCleanups(before), step)
  }

  /** Everything that the steps of a run answered, in order. */
  function Answers(cfg: Policy, run: Run): seq<LockoutState> {
    match run
    case Start(_) => []
    case Then(before, step) =>
      var answer := Answer(cfg, TableOf(cfg, before), step);
      Answers(cfg, before) + if answer.Some? then [answer.value] else []
  }

  /** Every check and every failure is among the answers, in its place; resets and clean-ups have none. */
  lemma AnswersAreAll(cfg: Policy, run: Run, step: Step)
    ensures var answers := Answers(cfg, Then(run, step));
            match step
            case Check(who, ip, at) => answers == Answers(cfg, run) + [CheckDatabase(TableOf(cfg, run), Dimensions(who, ip), at)]
            case Fail(who, ip, _) => answers == Answers(cfg, run) + [Imposed(cfg, TableOf(cfg, Then(run, step)), Dimensions(who, ip))]
            case _ => answers == Answers(cfg, run)
  {
  }

  predicate HasCleanup(run: Run) {
    run.Then? && (run.step.Cleanup? || HasCleanup(run.before))
  }

  /** The run without its clean-ups has none, and is the same in all other respects. */
  lemma {:induction false} OnlyCleanupsAreLeftOut(run: Run, d: Dim)
    ensures !HasCleanup(WithoutCleanups(run)) && (!HasCleanup(run) ==> WithoutCleanups(run) == run)
    ensures Failures(WithoutCleanups(run), d) == Failures(run, d)
    ensures run.Then? && !run.step.Cleanup? ==> WithoutCleanups(run) == Then(WithoutCleanups(run.before), run.step)
  {
    if run.Then? {
      OnlyCleanupsAreLeftOut(run.before, d);
    }
  }

  lemma {:induction false} TablesExpireLocksFirst(cfg: Policy, run: Run)
    ensures LocksExpireFirst(TableOf(cfg, run))
  {
    if run.Then? {
      TablesExpireLocksFirst(cfg, run.before);
      if run.step.Fail? {
        var table, at := TableOf(cfg, run.before), run.step.at;
        forall d | d in TableOf(cfg, run) && TableOf(cfg, run)[d].lockedUntil.Some?
          ensures TableOf(cfg, run)[d].lockedUntil.value <= TableOf(cfg, run)[d].expiresAt
        {
          WrittenFind(table, Dimensions(run.step.who, run.step.ip), Bumps(cfg, table, at), d);
          LockSecondsBounds(cfg, TableOf(cfg, run)[d].attempts);
        }
      }
    }
  }

  lemma SameChecks(a: Table, b: Table, dims: seq<Dim>, now: Time)
    requires LocksExpireFirst(a) && LocksExpireFirst(b) && SameLiveRows(a, b, now)
    ensures CheckDatabase(a, dims, now) == CheckDatabase(b, dims, now)
  {
    forall d
      ensures WaitOf(a, d, now) == WaitOf(b, d, now)
    {
      assert Live(Find(a, d), now) == Live(Find(b, d), now);
    }
    LongestCongruent(dims, WaitMeter(a, now), WaitMeter(b, now));
  }

  lemma SameRowAfterFailure(cfg: Policy, a: Table, b: Table, dims: seq<Dim>, now: Time, d: Dim)
    requires SameLiveRows(a, b, now)
    ensures var a', b' := Registered(cfg, a, dims, now), Registered(cfg, b, dims, now);
            && Live(Find(a', d), now) == Live(Find(b', d), now)
            && (d in dims ==> Find(a', d) == Find(b', d))
  {
    assert Live(Find(a, d), now) == Live(Find(b, d), now);
    WrittenFind(a, dims, Bumps(cfg, a, now), d);
    WrittenFind(b, dims, Bumps(cfg, b, now), d);
  }

  lemma SameLocksImposed(cfg: Policy, a: Table, b: Table, dims: seq<Dim>)
    requires forall d :: d in dims ==> Find(a, d) == Find(b, d)
    ensures Imposed(cfg, a, dims) == Imposed(cfg, b, dims)
  {
    forall d | d in dims
      ensures LockOf(cfg, a, d) == LockOf(cfg, b, d)
    {
      assert Find(a, d) == Find(b, d);
    }
    LongestCongruent(dims, LockMeter(cfg, a), LockMeter(cfg, b));
    LongestCongruent(dims, AccountMeter(cfg, a), AccountMeter(cfg, b));
  }

  lemma SameFailures(cfg: Policy, a: Table, b: Table, dims: seq<Dim>, now: Time)
    requires SameLiveRows(a, b, now)
    ensures SameLiveRows(Registered(cfg, a, dims, now), Registered(cfg, b, dims, now), now)
    ensures Imposed(cfg, Registered(cfg, a, dims, now), dims) == Imposed(cfg, Registered(cfg, b, dims, now), dims)
  {
    forall d: Dim {
      SameRowAfterFailure(cfg, a, b, dims, now, d);
    }
    SameLocksImposed(cfg, Registered(cfg, a, dims, now), Registered(cfg, b, dims, now), dims);
  }

  lemma SameAfterStep(cfg: Policy, a: Table, b: Table, step: Step, clock: Time)
    requires LocksExpireFirst(a) && LocksExpireFirst(b) && SameLiveRows(a, b, clock) && clock <= step.at
    ensures Answer(cfg, a, step) == Answer(cfg, b, step)
    ensures SameLiveRows(Apply(cfg, a, step), if step.Cleanup? then b else Apply(cfg, b, step), step.at)
  {
    forall d: Dim
      ensures Live(Find(a, d), step.at) == Live(Find(b, d), step.at)
    {
      assert Live(Find(a, d), clock) == Live(Find(b, d), clock);
    }
    match step
    case Check(who, ip, at) => SameChecks(a, b, Dimensions(who, ip), at);
    case Fail(who, ip, at) => SameFailures(cfg, a, b, Dimensions(who, ip), at);
    case Reset(_, _, _) =>
      forall d: Dim
        ensures Live(Find(Apply(cfg, a, step), d), step.at) == Live(Find(Apply(cfg, b, step), d), step.at)
      {
        assert Live(Find(a, d), step.at) == Live(Find(b, d), step.at);
      }
    case Cleanup(at) =>
      forall d: Dim
        ensures Live(Find(Apply(cfg, a, step), d), at) == Live(Find(b, d), at)
      {
        assert Live(Find(a, d), at) == Live(Find(b, d), at);
      }
  }

  lemma {:induction false} CleanupIsUnobservable(cfg: Policy, run: Run)
    requires Timed(run)
    ensures Answers(cfg, run) == Answers(cfg, WithoutCleanups(run))
    ensures SameLiveRows(TableOf(cfg, run), TableOf(cfg, WithoutCleanups(run)), Clock(run))
  {
    if run.Then? {
      var plain := WithoutCleanups(run.before);
      CleanupIsUnobservable(cfg, run.before);
      TablesExpireLocksFirst(cfg, run.before);
      TablesExpireLocksFirst(cfg, plain);
      SameAfterStep(cfg, TableOf(cfg, run.before), TableOf(cfg, plain), run.step, Clock(run.before));
    }
  }

  /** Two runs of the same checks, failures and resets, with clean-ups in different places, answer alike. */
  lemma CleanupPlacementIsUnobservable(cfg: Policy, a: Run, b: Run)
    requires Timed(a) && Timed(b) && WithoutCleanups(a) == WithoutCleanups(b)
    ensures Answers(cfg, a) == Answers(cfg, b)
  {
    CleanupIsUnobservable(cfg, a);
    CleanupIsUnobservable(cfg, b);
  }
}
