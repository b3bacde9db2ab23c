/**
 Webhook delivery: a task reserves a delivery under a row lock, makes its attempt outside the lock
 and writes the outcome back without one. Dispatchers, duplicate tasks, crashes and the passing of
 time interleave freely; endpoints may be switched on and off.
 */
module Webhooks {
  import opened Common

  /** How long a reservation is respected. */
  const LEASE: Time := Seconds(15 * 60)
  const MAX_ATTEMPTS: nat := 8
  const BATCH: nat := 100

  type Id = nat

  datatype Status = Pending | Processing | Succeeded | Failed | Abandoned

  datatype Delivery = Delivery(
    endpoint: nat, status: Status, attempts: nat, lastAttemptAt: Option<Time>, nextRetryAt: Option<Time>)

  /** A task between its reservation and its write-back: it remembers the attempt that it reserved. */
  datatype Worker = Worker(delivery: Id, attempt: nat, since: Time)

  datatype State = State(now: Time, rows: map<Id, Delivery>, active: set<nat>, workers: map<nat, Worker>)

  /** A 2xx response, or a refused address, a transport error or another response. */
  datatype Outcome = Delivered | Rejected

  predicate Terminal(row: Delivery) {
    row.status.Succeeded? || row.status.Abandoned?
  }

  // ---------------------------------------------------------------------------------------
  // One delivery
  // ---------------------------------------------------------------------------------------

  predicate Skipped(row: Delivery, now: Time) {
    || Terminal(row)
    || (row.status.Processing? && row.lastAttemptAt.Some? && row.lastAttemptAt.value > now - LEASE)
  }

  function Reserved(row: Delivery, now: Time): Delivery {
    row.(attempts := row.attempts + 1, lastAttemptAt := Some(now), status := Processing)
  }

  function RetryDelay(attempt: nat): Time
    requires attempt > 0
  {
    Seconds(Min(3600, 30 * Pow2(attempt - 1)))
  }

  /** The write-back saves the status and the retry time that follow from the worker's own attempt. */
  function Settled(row: Delivery, attempt: nat, outcome: Outcome, now: Time): Delivery
    requires attempt > 0
  {
    if outcome.Delivered? then row.(status := Succeeded, nextRetryAt := None)
    else if attempt >= MAX_ATTEMPTS then row.(status := Abandoned, nextRetryAt := None)
    else row.(status := Failed, nextRetryAt := Some(now + RetryDelay(attempt)))
  }

  // ---------------------------------------------------------------------------------------
  // Runs
  // ---------------------------------------------------------------------------------------

  datatype Step =
    | Emit(id: Id, endpoint: nat)
    | Switch(endpoint: nat, on: bool)
    | Reserve(worker: nat, id: Id)
    | Finish(worker: nat, outcome: Outcome)
    | Crash(worker: nat)
    | Tick(to: Time)

  datatype Run = Start(at: Time) | Then(before: Run, step: Step)

  /** Worker `w` is free and takes the delivery: the reservation commits. */
  predicate Takes(s: State, w: nat, id: Id) {
    w !in s.workers && id in s.rows && !Skipped(s.rows[id], s.now)
  }

  function Apply(s: State, step: Step): State {
    match step
    case Emit(id, endpoint) =>
      if id in s.rows then s else s.(rows := s.rows[id := Delivery(endpoint, Pending, 0, None, None)])
    case Switch(endpoint, on) =>
      s.(active := if on then s.active + {endpoint} else s.active - {endpoint})
    case Reserve(w, id) =>
      if !Takes(s, w, id) then s
      else
        var row := Reserved(s.rows[id], s.now);
        s.(rows := s.rows[id := row], workers := s.workers[w := Worker(id, row.attempts, s.now)])
    case Finish(w, outcome) =>
      if w !in s.workers || s.workers[w].delivery !in s.rows || s.workers[w].attempt == 0 then s
      else
        var Worker(id, attempt, _) := s.workers[w];
        s.(rows := s.rows[id := Settled(s.rows[id], attempt, outcome, s.now)], workers := s.workers - {w})
    case Crash(w) => s.(workers := s.workers - {w})
    case Tick(to) => s.(now := Max(s.now, to))
  }

  function StateOf(run: Run): State {
    match run
    case Start(at) => State(at, map[], {}, map[])
    case Then(before, step) => Apply(StateOf(before), step)
  }

  /** Every task writes its outcome, or has crashed, before its lease is over. */
  predicate WithinLease(s: State) {
    forall w :: w in s.workers ==> s.now < s.workers[w].since + LEASE
  }

  predicate Timely(run: Run) {
    WithinLease(StateOf(run)) && (run.Then? ==> Timely(run.before))
  }

  /** What the steps around a delivery do: a new delivery is PENDING with no attempt, a switch changes the active
      endpoints, a crash ends a task and nothing else, and none of them touches a delivery there is. */
  lemma OtherStepsKeepRows(run: Run, id: Id, endpoint: nat, on: bool, w: nat)
    ensures var s := StateOf(run);
            var emitted, switched, crashed :=
              StateOf(Then(run, Emit(id, endpoint))), StateOf(Then(run, Switch(endpoint, on))), StateOf(Then(run, Crash(w)));
            && id in emitted.rows
            && (id !in s.rows ==> emitted.rows[id] == Delivery(endpoint, Pending, 0, None, None))
            && (forall o :: o in s.rows ==> o in emitted.rows && emitted.rows[o] == s.rows[o])
            && emitted.workers == s.workers && emitted.active == s.active
            && switched.rows == s.rows && switched.workers == s.workers
            && (forall e :: e in switched.active <==> if e == endpoint then on else e in s.active)
            && crashed.rows == s.rows && crashed.active == s.active
            && (forall v :: v in crashed.workers <==> v != w && v in s.workers)
            && (forall v :: v in crashed.workers ==> crashed.workers[v] == s.workers[v])
  {
  }

  /** A free task takes a delivery unless that has succeeded or been abandoned, or was reserved less than fifteen
      minutes ago and is still being processed. In particular it takes one whose retry time has not come yet. */
  lemma TakenIff(run: Run, w: nat, id: Id)
    requires w !in StateOf(run).workers && id in StateOf(run).rows
    ensures var s, row := StateOf(run), StateOf(run).rows[id];
            var t := StateOf(Then(run, Reserve(w, id)));
            if row.status == Succeeded || row.status == Abandoned
               || (row.status == Processing && row.lastAttemptAt.Some? && s.now < row.lastAttemptAt.value + Seconds(15 * 60))
            then t == s
            else && t.workers == s.workers[w := Worker(id, row.attempts + 1, s.now)]
                 && t.rows == s.rows[id := Delivery(row.endpoint, Processing, row.attempts + 1, Some(s.now), row.nextRetryAt)]
  {
  }

  // ---------------------------------------------------------------------------------------
  // What every run keeps, whatever the timing
  // ---------------------------------------------------------------------------------------

  predicate SaneRow(row: Delivery, now: Time) {
    && (row.lastAttemptAt.Some? ==> row.lastAttemptAt.value <= now)
    && match row.status
       case Pending => row.attempts == 0 && row.lastAttemptAt.None? && row.nextRetryAt.None?
       case Processing => row.attempts > 0 && row.lastAttemptAt.Some?
       case Failed => row.attempts > 0 && row.lastAttemptAt.Some? && row.nextRetryAt.Some?
       case _ => row.attempts > 0 && row.lastAttemptAt.Some? && row.nextRetryAt.None?
  }

  predicate Sane(s: State) {
    && (forall id :: id in s.rows ==> SaneRow(s.rows[id], s.now))
    && (forall w :: w in s.workers ==>
          var Worker(id, attempt, since) := s.workers[w];
          && attempt > 0 && since <= s.now
          && id in s.rows && !s.rows[id].status.Pending?)
  }

  lemma ReserveKeepsSane(s: State, w: nat, id: Id)
    requires Sane(s)
    ensures Sane(Apply(s, Reserve(w, id)))
  {
  }

  lemma FinishKeepsSane(s: State, w: nat, outcome: Outcome)
    requires Sane(s)
    ensures Sane(Apply(s, Finish(w, outcome)))
  {
  }

  lemma {:induction false} EveryRunIsSane(run: Run)
    ensures Sane(StateOf(run))
  {
    if run.Then? {
      EveryRunIsSane(run.before);
      match run.step
      case Reserve(w, id) => ReserveKeepsSane(StateOf(run.before), w, id);
      case Finish(w, outcome) => FinishKeepsSane(StateOf(run.before), w, outcome);
      case _ =>
    }
  }

  // ---------------------------------------------------------------------------------------
  // Exclusive delivery
  // ---------------------------------------------------------------------------------------

  /** The row still is what the worker's reservation made it. */
  predicate Holds(s: State, w: nat)
    requires w in s.workers
  {
    var Worker(id, attempt, since) := s.workers[w];
    && id in s.rows
    && s.rows[id].status.Processing? && s.rows[id].attempts == attempt && s.rows[id].lastAttemptAt == Some(since)
  }

  predicate Exclusive(s: State) {
    && (forall w :: w in s.workers ==> Holds(s, w) && s.workers[w].attempt > 0)
    && (forall v, w :: v in s.workers && w in s.workers && v != w ==> s.workers[v].delivery != s.workers[w].delivery)
  }

  lemma ReservationKeepsExclusive(s: State, w: nat, id: Id)
    requires Exclusive(s) && WithinLease(s)
    ensures Exclusive(Apply(s, Reserve(w, id)))
  {
    if Takes(s, w, id) {
      assert forall v :: v in s.workers ==> Holds(s, v) && s.workers[v].delivery != id;
      var after := Apply(s, Reserve(w, id));
      assert forall v :: v in s.workers ==> Holds(after, v);
    }
  }

  lemma FinishKeepsExclusive(s: State, w: nat, outcome: Outcome)
    requires Exclusive(s)
    ensures Exclusive(Apply(s, Finish(w, outcome)))
  {
    var after := Apply(s, Finish(w, outcome));
    assert forall v :: v in after.workers ==> Holds(s, v) && Holds(after, v);
  }

  lemma StepKeepsExclusive(s: State, step: Step)
    requires Exclusive(s) && WithinLease(s)
    ensures Exclusive(Apply(s, step))
  {
    match step
    case Reserve(w, id) => ReservationKeepsExclusive(s, w, id);
    case Finish(w, outcome) => FinishKeepsExclusive(s, w, outcome);
    case _ =>
      var after := Apply(s, step);
      assert forall v :: v in after.workers ==> Holds(s, v) && Holds(after, v);
  }

  /** At most one task is at work on a delivery, and the row is the one that its reservation wrote. */
  lemma {:induction false} DeliveryIsExclusive(run: Run)
    requires Timely(run)
    ensures Exclusive(StateOf(run))
  {
    if run.Then? {
      DeliveryIsExclusive(run.before);
      StepKeepsExclusive(StateOf(run.before), run.step);
    }
  }

  /** Each outcome is written to the attempt that reserved it: the row was being processed under that
      attempt, and keeps its count and its start. */
  lemma OutcomeLandsOnOwnAttempt(run: Run, w: nat, outcome: Outcome)
    requires Timely(run) && w in StateOf(run).workers
    ensures var s, worker := StateOf(run), StateOf(run).workers[w];
            var after := Apply(s, Finish(w, outcome));
            && Holds(s, w)
            && w !in after.workers
            && after.rows == s.rows[worker.delivery := after.rows[worker.delivery]]
            && after.rows[worker.delivery].attempts == worker.attempt
            && after.rows[worker.delivery].lastAttemptAt == Some(worker.since)
            && (after.rows[worker.delivery].status.Succeeded? <==> outcome.Delivered?)
            && (after.rows[worker.delivery].status.Abandoned? <==> outcome.Rejected? && worker.attempt >= MAX_ATTEMPTS)
  {
    DeliveryIsExclusive(run);
    assert Holds(StateOf(run), w);
  }

  lemma TerminalIsKept(s: State, step: Step, id: Id)
    requires Exclusive(s) && id in s.rows && Terminal(s.rows[id])
    ensures id in Apply(s, step).rows && Apply(s, step).rows[id] == s.rows[id]
  {
    if step.Finish? && step.worker in s.workers {
      assert Holds(s, step.worker);
    }
  }

  predicate Extends(earlier: Run, run: Run) {
    earlier == run || (run.Then? && Extends(earlier, run.before))
  }

  /** A delivery that has succeeded or was abandoned stays exactly as it is. */
  lemma {:induction false} TerminalIsAbsorbing(earlier: Run, run: Run, id: Id)
    requires Timely(run) && Extends(earlier, run)
    requires id in StateOf(earlier).rows && Terminal(StateOf(earlier).rows[id])
    ensures id in StateOf(run).rows && StateOf(run).rows[id] == StateOf(earlier).rows[id]
  {
    if earlier != run {
      TerminalIsAbsorbing(earlier, run.before, id);
      DeliveryIsExclusive(run.before);
      TerminalIsKept(StateOf(run.before), run.step, id);
    }
  }

  // The lease is what exclusion rests on: the write-back itself takes no lock.

  /** A second task can take a delivery that is being worked on exactly when that work is overdue. */
  lemma SecondTaskIffOverdue(s: State, w: nat, other: nat)
    requires Exclusive(s) && w in s.workers && other !in s.workers
    ensures other in Apply(s, Reserve(other, s.workers[w].delivery)).workers <==> s.now >= s.workers[w].since + Seconds(15 * 60)
    ensures other in Apply(s, Reserve(other, s.workers[w].delivery)).workers
        ==> !Exclusive(Apply(s, Reserve(other, s.workers[w].delivery)))
  {
    assert Holds(s, w);
    var after := Apply(s, Reserve(other, s.workers[w].delivery));
    if other in after.workers {
      assert w in after.workers && after.workers[w].delivery == after.workers[other].delivery;
    }
  }

  /** From every state with overdue work, a late failure can overturn another task's success: the delivery is
      taken up again, or given up if the late attempt was the last one allowed. */
  lemma LateWriteOverturnsSuccess(s: State, w: nat, other: nat)
    requires Exclusive(s) && w in s.workers && other !in s.workers
    requires s.now >= s.workers[w].since + LEASE
    ensures var id := s.workers[w].delivery;
            var delivered := Apply(Apply(s, Reserve(other, id)), Finish(other, Delivered));
            && delivered.rows[id].status.Succeeded?
            && Apply(delivered, Finish(w, Rejected)).rows[id].status
               == if s.workers[w].attempt < MAX_ATTEMPTS then Failed else Abandoned
  {
    assert Holds(s, w);
    var id := s.workers[w].delivery;
    var taken := Apply(s, Reserve(other, id));
    assert taken.workers[other] == Worker(id, s.rows[id].attempts + 1, s.now);
    var delivered := Apply(taken, Finish(other, Delivered));
    assert delivered.workers[w] == s.workers[w];
  }

  /** Overdue work is reached from an empty table: one reservation, then fifteen minutes. */
  lemma OverdueIsReachable(now: Time)
    ensures var s := StateOf(Then(Then(Then(Start(now), Emit(0, 0)), Reserve(1, 0)), Tick(now + LEASE)));
            && Exclusive(s) && 1 in s.workers && s.workers[1] == Worker(0, 1, now)
            && s.now >= s.workers[1].since + LEASE
  {
    var emitted := Then(Start(now), Emit(0, 0));
    var reserved := Then(emitted, Reserve(1, 0));
    var row := Delivery(0, Pending, 0, None, None);
    assert StateOf(emitted) == State(now, map[0 := row], {}, map[]);
    assert Takes(StateOf(emitted), 1, 0);
    assert StateOf(reserved) == State(now, map[0 := Reserved(row, now)], {}, map[1 := Worker(0, 1, now)]);
    assert Holds(StateOf(Then(reserved, Tick(now + LEASE))), 1);
  }
}
