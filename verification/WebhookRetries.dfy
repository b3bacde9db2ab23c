/** How often and how fast a delivery is attempted, and what the dispatcher selects. */
module WebhookRetries {
  import opened Common
  import opened Webhooks

  // ---------------------------------------------------------------------------------------
  // The number of attempts
  // ---------------------------------------------------------------------------------------

  /** Tasks on a delivery that died between their reservation and their write-back. */
  function Crashes(run: Run, id: Id): nat {
    match run
    case Start(_) => 0
    case Then(before, Crash(w)) =>
      Crashes(before, id)
      + if w in StateOf(before).workers && StateOf(before).workers[w].delivery == id then 1 else 0
    case Then(before, _) => Crashes(before, id)
  }

  predicate Held(s: State, id: Id) {
    exists w :: w in s.workers && s.workers[w].delivery == id
  }

  predicate CountBounded(s: State, id: Id, crashes: nat) {
    id in s.rows ==>
      var row := s.rows[id];
      match row.status
      case Pending => row.attempts == 0
      case Failed => 1 <= row.attempts < MAX_ATTEMPTS
      case Processing => row.attempts <= MAX_ATTEMPTS + crashes && (Held(s, id) || row.attempts < MAX_ATTEMPTS + crashes)
      case _ => row.attempts <= MAX_ATTEMPTS + crashes
  }

  lemma ReserveKeepsBound(s: State, w: nat, id: Id, crashes: nat, taken: Id)
    requires Exclusive(s) && WithinLease(s) && CountBounded(s, id, crashes)
    ensures CountBounded(Apply(s, Reserve(w, taken)), id, crashes)
  {
    var after := Apply(s, Reserve(w, taken));
    if Takes(s, w, taken) {
      if taken == id {
        assert forall v :: v in s.workers ==> Holds(s, v);
        assert !Held(s, id);
        assert w in after.workers && after.workers[w].delivery == id;
      } else if Held(s, id) {
        var v :| v in s.workers && s.workers[v].delivery == id;
        assert v in after.workers && after.workers[v].delivery == id;
      }
    }
  }

  lemma FinishKeepsBound(s: State, w: nat, outcome: Outcome, id: Id, crashes: nat)
    requires Exclusive(s) && CountBounded(s, id, crashes)
    ensures CountBounded(Apply(s, Finish(w, outcome)), id, crashes)
  {
    if w in s.workers {
      assert Holds(s, w);
      var after := Apply(s, Finish(w, outcome));
      if s.workers[w].delivery != id && Held(s, id) {
        var v :| v in s.workers && s.workers[v].delivery == id;
        assert v in after.workers && after.workers[v].delivery == id;
      }
    }
  }

  lemma CrashKeepsBound(s: State, w: nat, id: Id, crashes: nat)
    requires Exclusive(s) && CountBounded(s, id, crashes)
    ensures CountBounded(Apply(s, Crash(w)), id,
                         crashes + if w in s.workers && s.workers[w].delivery == id then 1 else 0)
  {
    if !(w in s.workers && s.workers[w].delivery == id) && Held(s, id) {
      var v :| v in s.workers && s.workers[v].delivery == id;
      var after := Apply(s, Crash(w));
      assert v in after.workers && after.workers[v].delivery == id;
    }
  }

  /** In every timely run FAILED means one to seven attempts; with c crashed attempts there are never more
      than 8 + c. */
  lemma {:induction false} AttemptsAreBounded(run: Run, id: Id)
    requires Timely(run)
    ensures CountBounded(StateOf(run), id, Crashes(run, id))
  {
    if run.Then? {
      var s := StateOf(run.before);
      AttemptsAreBounded(run.before, id);
      DeliveryIsExclusive(run.before);
      match run.step
      case Reserve(w, taken) => ReserveKeepsBound(s, w, id, Crashes(run.before, id), taken);
      case Finish(w, outcome) => FinishKeepsBound(s, w, outcome, id, Crashes(run.before, id));
      case Crash(w) => CrashKeepsBound(s, w, id, Crashes(run.before, id));
      case _ =>
        if Held(s, id) {
          var v :| v in s.workers && s.workers[v].delivery == id;
          assert v in StateOf(run).workers && StateOf(run).workers[v].delivery == id;
        }
    }
  }

  /** `n` tasks take a delivery one after the other, each when the one before is overdue; none crashes. */
  function Overlapping(n: nat): Run {
    if n == 0 then Then(Start(0), Emit(0, 0))
    else Then(Then(Overlapping(n - 1), Tick(n * LEASE)), Reserve(n, 0))
  }

  lemma {:induction false} OverlappingState(n: nat)
    ensures var s := StateOf(Overlapping(n));
            && s.now == n * LEASE && s.rows.Keys == {0}
            && s.rows[0] == (if n == 0 then Delivery(0, Pending, 0, None, None)
                            else Delivery(0, Processing, n, Some(n * LEASE), None))
            && forall w :: w in s.workers <==> 1 <= w <= n
    ensures Crashes(Overlapping(n), 0) == 0
    ensures n > 0 ==> StateOf(Overlapping(n)).workers[1] == Worker(0, 1, LEASE)
  {
    if n > 0 {
      OverlappingState(n - 1);
      var ticked := Apply(StateOf(Overlapping(n - 1)), Tick(n * LEASE));
      assert ticked.now == n * LEASE;
      assert Takes(ticked, n, 0);
      assert StateOf(Overlapping(n)) == Apply(ticked, Reserve(n, 0));
    }
  }

  /** Without the timing there is no bound: a crash-free delivery may be FAILED after any number of attempts. */
  lemma UntimelyAttemptsAreUnbounded(n: nat)
    requires n > 0
    ensures var run := Then(Overlapping(n), Finish(1, Rejected));
            && Crashes(run, 0) == 0 && 0 in StateOf(run).rows
            && StateOf(run).rows[0].status.Failed? && StateOf(run).rows[0].attempts == n
  {
    OverlappingState(n);
  }

  /** In a timely run a crash-free delivery has used up its measure after eight attempts: the eighth outcome is
      final. */
  lemma EighthOutcomeIsFinal(run: Run, w: nat, outcome: Outcome)
    requires Timely(run) && w in StateOf(run).workers
    requires Crashes(run, StateOf(run).workers[w].delivery) == 0
    ensures var s, worker := StateOf(run), StateOf(run).workers[w];
            && 1 <= worker.attempt <= MAX_ATTEMPTS
            && worker.delivery in Apply(s, Finish(w, outcome)).rows
            && (worker.attempt == MAX_ATTEMPTS ==> Terminal(Apply(s, Finish(w, outcome)).rows[worker.delivery]))
  {
    AttemptsAreBounded(run, StateOf(run).workers[w].delivery);
    DeliveryIsExclusive(run);
    assert Holds(StateOf(run), w);
  }

  lemma Pow2Small()
    ensures Pow2(0) == 1 && Pow2(1) == 2 && Pow2(2) == 4 && Pow2(3) == 8
    ensures Pow2(4) == 16 && Pow2(5) == 32 && Pow2(6) == 64 && Pow2(7) == 128
  {
    assert Pow2(3) == 8;
    assert Pow2(5) == 32;
  }

  function PlainDelay(attempt: nat): Time
    requires attempt > 0
  {
    Seconds(30 * Pow2(attempt - 1))
  }

  lemma CapNeverBinds(attempt: nat)
    requires 1 <= attempt < MAX_ATTEMPTS
    ensures RetryDelay(attempt) == PlainDelay(attempt)
  {
    Pow2Small();
  }

  /** A failed attempt is due again after 30 seconds doubled once per earlier attempt, until the eighth. */
  lemma RetryTimeIsExact(run: Run, w: nat)
    requires Timely(run) && w in StateOf(run).workers
    ensures var s, worker := StateOf(run), StateOf(run).workers[w];
            var after := Apply(s, Finish(w, Rejected));
            && worker.attempt > 0 && worker.delivery in after.rows
            && after.rows[worker.delivery].nextRetryAt
               == if worker.attempt < MAX_ATTEMPTS then Some(s.now + PlainDelay(worker.attempt)) else None
  {
    DeliveryIsExclusive(run);
    assert Holds(StateOf(run), w);
    if StateOf(run).workers[w].attempt < MAX_ATTEMPTS {
      CapNeverBinds(StateOf(run).workers[w].attempt);
    }
  }

  // ---------------------------------------------------------------------------------------
  // The dispatcher's queries
  // ---------------------------------------------------------------------------------------

  datatype Query = NewOnes | Retries | Stale

  predicate Matches(s: State, id: Id, query: Query, now: Time) {
    && id in s.rows && s.rows[id].endpoint in s.active
    && var row := s.rows[id];
       match query
       case NewOnes => row.status.Pending? && row.nextRetryAt.None?
       case Retries => row.status.Failed? && row.nextRetryAt.Some? && row.nextRetryAt.value <= now
       case Stale => row.status.Processing? && row.lastAttemptAt.Some? && row.lastAttemptAt.value < now - LEASE
  }

  predicate Due(s: State, id: Id, now: Time) {
    Matches(s, id, NewOnes, now) || Matches(s, id, Retries, now) || Matches(s, id, Stale, now)
  }

  /** From when on the dispatcher sees an unfinished delivery, and through which query. */
  function DueFrom(row: Delivery, now: Time): Time {
    match row.status
    case Failed => if row.nextRetryAt.Some? then row.nextRetryAt.value else now
    case Processing => if row.lastAttemptAt.Some? then row.lastAttemptAt.value + Seconds(15 * 60) + 1 else now
    case _ => now
  }

  function QueryFor(row: Delivery): Query {
    match row.status
    case Failed => Retries
    case Processing => Stale
    case _ => NewOnes
  }

  /** In every reachable state each unfinished delivery of an active endpoint is matched by exactly one
      query, from a known instant on; no other delivery is ever matched. */
  lemma NoDeliveryIsStranded(run: Run, id: Id, query: Query, later: Time)
    requires id in StateOf(run).rows && StateOf(run).now <= later
    ensures var s, row := StateOf(run), StateOf(run).rows[id];
            Matches(s, id, query, later)
            <==> !Terminal(row) && row.endpoint in s.active && query == QueryFor(row) && later >= DueFrom(row, s.now)
  {
    EveryRunIsSane(run);
    assert SaneRow(StateOf(run).rows[id], StateOf(run).now);
  }

  /** What a crashed task leaves behind is taken up again: more than fifteen minutes after its reservation the
      dispatcher selects the delivery, unless its endpoint is switched off, and any free task takes it. */
  lemma CrashIsRecovered(run: Run, w: nat, free: nat, later: Time)
    requires Timely(run) && w in StateOf(run).workers && free !in StateOf(run).workers - {w}
    requires later > StateOf(run).workers[w].since + Seconds(15 * 60)
    ensures var id := StateOf(run).workers[w].delivery;
            var crashed := Then(Then(run, Crash(w)), Tick(later));
            && id in StateOf(crashed).rows
            && (StateOf(crashed).rows[id].endpoint in StateOf(crashed).active <==> Due(StateOf(crashed), id, StateOf(crashed).now))
            && Takes(StateOf(crashed), free, id)
  {
    DeliveryIsExclusive(run);
    assert Holds(StateOf(run), w);
  }

  lemma DueIsNotSkipped(s: State, id: Id, selected: Time, now: Time)
    requires Due(s, id, selected) && selected <= now
    ensures !Skipped(s.rows[id], now)
  {
  }

  lemma {:induction false} TimePasses(earlier: Run, run: Run)
    requires Extends(earlier, run)
    ensures StateOf(earlier).now <= StateOf(run).now
  {
    if earlier != run {
      TimePasses(earlier, run.before);
    }
  }

  /** A delivery that was selected, and whose row has not changed since, is taken by the task that runs for
      it, however late and whatever happened in between. */
  lemma SelectedIsTaken(earlier: Run, run: Run, id: Id, w: nat)
    requires Extends(earlier, run) && Due(StateOf(earlier), id, StateOf(earlier).now)
    requires id in StateOf(run).rows && StateOf(run).rows[id] == StateOf(earlier).rows[id]
    requires w !in StateOf(run).workers
    ensures Takes(StateOf(run), w, id)
  {
    TimePasses(earlier, run);
    DueIsNotSkipped(StateOf(earlier), id, StateOf(earlier).now, StateOf(run).now);
  }

  // ---------------------------------------------------------------------------------------
  // The spacing of the attempts
  // ---------------------------------------------------------------------------------------

  /** The instants at which a delivery was reserved. */
  function AttemptTimes(run: Run, id: Id): seq<Time> {
    match run
    case Start(_) => []
    case Then(before, Reserve(w, taken)) =>
      AttemptTimes(before, id)
      + if taken == id && Takes(StateOf(before), w, id) then [StateOf(before).now] else []
    case Then(before, _) => AttemptTimes(before, id)
  }

  /** Tasks run only for deliveries that a query of their own instant selects: one dispatcher, in line. */
  predicate InLine(run: Run) {
    match run
    case Start(_) => true
    case Then(before, Reserve(_, id)) => InLine(before) && Due(StateOf(before), id, StateOf(before).now)
    case Then(before, _) => InLine(before)
  }

  predicate RetryIsSpaced(s: State, id: Id, times: seq<Time>) {
    if id !in s.rows then times == []
    else
      var row := s.rows[id];
      && |times| == row.attempts
      && (row.status.Processing? ==> Held(s, id))
      && (row.attempts > 0 ==> row.lastAttemptAt == Some(times[|times| - 1]) && times[|times| - 1] <= s.now)
      && (row.status.Failed? ==> 0 < row.attempts && row.nextRetryAt.Some?
                                 && row.nextRetryAt.value >= times[|times| - 1] + RetryDelay(row.attempts))
  }

  lemma SpacingAfterFinish(s: State, w: nat, outcome: Outcome, id: Id, times: seq<Time>)
    requires Exclusive(s) && RetryIsSpaced(s, id, times)
    ensures RetryIsSpaced(Apply(s, Finish(w, outcome)), id, times)
  {
    var after := Apply(s, Finish(w, outcome));
    if w in s.workers {
      assert Holds(s, w);
      if s.workers[w].delivery != id && Held(s, id) {
        var v :| v in s.workers && s.workers[v].delivery == id;
        assert v in after.workers && after.workers[v].delivery == id;
      }
    }
  }

  lemma SpacingAfterReserve(s: State, w: nat, taken: Id, id: Id, times: seq<Time>)
    requires RetryIsSpaced(s, id, times)
    ensures RetryIsSpaced(Apply(s, Reserve(w, taken)), id,
                          times + if taken == id && Takes(s, w, id) then [s.now] else [])
  {
    var after := Apply(s, Reserve(w, taken));
    if Takes(s, w, taken) {
      if taken == id {
        assert w in after.workers && after.workers[w].delivery == id;
      } else if Held(s, id) {
        var v :| v in s.workers && s.workers[v].delivery == id;
        assert v in after.workers && after.workers[v].delivery == id;
      }
    }
  }

  lemma {:induction false} RetriesAreSpaced(run: Run, id: Id)
    requires Timely(run) && Crashes(run, id) == 0
    ensures RetryIsSpaced(StateOf(run), id, AttemptTimes(run, id))
  {
    if run.Then? {
      var s := StateOf(run.before);
      RetriesAreSpaced(run.before, id);
      DeliveryIsExclusive(run.before);
      EveryRunIsSane(run.before);
      match run.step
      case Reserve(w, taken) => SpacingAfterReserve(s, w, taken, id, AttemptTimes(run.before, id));
      case Finish(w, outcome) => SpacingAfterFinish(s, w, outcome, id, AttemptTimes(run.before, id));
      case _ =>
        if Held(s, id) {
          var v :| v in s.workers && s.workers[v].delivery == id;
          assert v in StateOf(run).workers && StateOf(run).workers[v].delivery == id;
        }
    }
  }

  lemma HeldIsNotTaken(s: State, w: nat, id: Id)
    requires Exclusive(s) && WithinLease(s) && Held(s, id)
    ensures !Takes(s, w, id)
  {
    var v :| v in s.workers && s.workers[v].delivery == id;
    assert Holds(s, v);
  }

  /** A reservation that is in line comes at least the backoff after the attempt before it. */
  lemma NextAttemptIsSpaced(run: Run, w: nat, id: Id)
    requires Timely(run) && Crashes(run, id) == 0
    requires Due(StateOf(run), id, StateOf(run).now) && Takes(StateOf(run), w, id)
    ensures var times := AttemptTimes(run, id);
            |times| > 0 ==> |times| < MAX_ATTEMPTS && StateOf(run).now - times[|times| - 1] >= PlainDelay(|times|)
  {
    var s, times := StateOf(run), AttemptTimes(run, id);
    RetriesAreSpaced(run, id);
    AttemptsAreBounded(run, id);
    DeliveryIsExclusive(run);
    EveryRunIsSane(run);
    assert SaneRow(s.rows[id], s.now);
    if Held(s, id) {
      HeldIsNotTaken(s, w, id);
    }
    if |times| > 0 {
      CapNeverBinds(|times|);
    }
  }

  /** In a timely run with one dispatcher, attempts n and n+1 of a crash-free delivery are at least
      30 * 2^(n-1) seconds apart. */
  lemma {:induction false} AttemptsAreSpaced(run: Run, id: Id, n: nat)
    requires Timely(run) && InLine(run) && Crashes(run, id) == 0
    requires 0 < n < |AttemptTimes(run, id)|
    ensures AttemptTimes(run, id)[n] - AttemptTimes(run, id)[n - 1] >= PlainDelay(n)
  {
    match run
    case Then(before, Reserve(w, taken)) =>
      if n < |AttemptTimes(before, id)| {
        AttemptsAreSpaced(before, id, n);
      } else {
        NextAttemptIsSpaced(before, w, id);
      }
    case Then(before, _) => AttemptsAreSpaced(before, id, n);
  }

  lemma {:induction false} AttemptsSpan(run: Run, id: Id, n: nat)
    requires Timely(run) && InLine(run) && Crashes(run, id) == 0
    requires n < |AttemptTimes(run, id)|
    ensures AttemptTimes(run, id)[n] - AttemptTimes(run, id)[0] >= Seconds(30 * (Pow2(n) - 1))
  {
    if n > 0 {
      AttemptsSpan(run, id, n - 1);
      AttemptsAreSpaced(run, id, n);
    }
  }

  /** In a timely run a crash-free delivery is abandoned after exactly eight attempts. */
  lemma {:induction false} AbandonedAfterEight(run: Run, id: Id)
    requires Timely(run) && Crashes(run, id) == 0
    requires id in StateOf(run).rows && StateOf(run).rows[id].status.Abandoned?
    ensures StateOf(run).rows[id].attempts == MAX_ATTEMPTS
  {
    var before, s := run.before, StateOf(run.before);
    DeliveryIsExclusive(before);
    AttemptsAreBounded(run, id);
    if id in s.rows && s.rows[id].status.Abandoned? {
      AbandonedAfterEight(before, id);
      TerminalIsKept(s, run.step, id);
    } else {
      assert run.step.Finish? && Holds(s, run.step.worker);
    }
  }

  /** In a timely run with one dispatcher and no crash a delivery is given up after eight attempts and no
      earlier than 3810 seconds after the first. */
  lemma GivingUpTakesAnHour(run: Run, id: Id)
    requires Timely(run) && InLine(run) && Crashes(run, id) == 0
    requires id in StateOf(run).rows && StateOf(run).rows[id].status.Abandoned?
    ensures var times := AttemptTimes(run, id);
            |times| == MAX_ATTEMPTS && times[MAX_ATTEMPTS - 1] - times[0] >= Seconds(3810)
  {
    RetriesAreSpaced(run, id);
    AbandonedAfterEight(run, id);
    AttemptsSpan(run, id, MAX_ATTEMPTS - 1);
    Pow2Small();
  }
}
