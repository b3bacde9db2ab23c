/** The dispatcher's batch and the delivery task, over the stored deliveries. */
module WebhookService {
  import opened Common
  import opened Webhooks
  import opened WebhookRetries

  // ---------------------------------------------------------------------------------------
  // A batch on one snapshot
  // ---------------------------------------------------------------------------------------

  /** The rows that a query returns, in the order in which it visits the table. */
  function Selected(s: State, order: seq<Id>, query: Query, now: Time): seq<Id> {
    if |order| == 0 then []
    else
      var front := Selected(s, order[..|order| - 1], query, now);
      if Matches(s, order[|order| - 1], query, now) then front + [order[|order| - 1]] else front
  }

  function First(n: int, ids: seq<Id>): seq<Id> {
    if n <= 0 then [] else if n < |ids| then ids[..n] else ids
  }

  ghost predicate Enumerates(order: seq<Id>, rows: map<Id, Delivery>) {
    NoDuplicates(order) && forall id :: id in order <==> id in rows
  }

  /** The order in which each query happens to visit the table. */
  type Orders = Query -> seq<Id>

  ghost predicate EnumerateAll(orders: Orders, rows: map<Id, Delivery>) {
    forall query :: Enumerates(orders(query), rows)
  }

  function AllSelected(s: State, orders: Orders, now: Time): seq<Id> {
    Selected(s, orders(NewOnes), NewOnes, now) + Selected(s, orders(Retries), Retries, now)
    + Selected(s, orders(Stale), Stale, now)
  }

  function DueIds(s: State, now: Time): set<Id> {
    set id | id in s.rows && Due(s, id, now)
  }

  lemma {:induction false} SelectedMatches(s: State, order: seq<Id>, query: Query, now: Time)
    requires NoDuplicates(order)
    ensures forall id :: id in Selected(s, order, query, now) <==> id in order && Matches(s, id, query, now)
    ensures NoDuplicates(Selected(s, order, query, now))
  {
    if |order| > 0 {
      var front, last := order[..|order| - 1], order[|order| - 1];
      assert order == front + [last] && last !in front;
      SelectedMatches(s, front, query, now);
    }
  }

  lemma AppendDistinct(a: seq<Id>, b: seq<Id>)
    requires NoDuplicates(a) && NoDuplicates(b) && forall id :: id in a ==> id !in b
    ensures NoDuplicates(a + b)
    ensures forall id :: id in a + b <==> id in a || id in b
  {
    var c := a + b;
    forall i, j | 0 <= i < j < |c|
      ensures c[i] != c[j]
    {
      assert i < |a| ==> c[i] in a;
      assert j >= |a| ==> c[j] in b && c[j] == b[j - |a|];
    }
  }

  lemma AllSelectedAreDue(s: State, orders: Orders, now: Time)
    requires EnumerateAll(orders, s.rows)
    ensures NoDuplicates(AllSelected(s, orders, now))
    ensures forall id :: id in AllSelected(s, orders, now) <==> id in DueIds(s, now)
  {
    SelectedMatches(s, orders(NewOnes), NewOnes, now);
    SelectedMatches(s, orders(Retries), Retries, now);
    SelectedMatches(s, orders(Stale), Stale, now);
    var a, b, c := Selected(s, orders(NewOnes), NewOnes, now), Selected(s, orders(Retries), Retries, now), Selected(s, orders(Stale), Stale, now);
    AppendDistinct(a, b);
    AppendDistinct(a + b, c);
  }

  lemma {:induction false} DistinctCount(ids: seq<Id>, all: set<Id>)
    requires NoDuplicates(ids) && forall id :: id in ids <==> id in all
    ensures |ids| == |all|
  {
    if |ids| > 0 {
      var front, last := ids[..|ids| - 1], ids[|ids| - 1];
      assert ids == front + [last] && last !in front;
      assert forall id :: id in front <==> id in all - {last};
      DistinctCount(front, all - {last});
    } else {
      assert all == {};
    }
  }

  /** A batch has at most a hundred ids, all distinct and all due; it leaves out a due delivery only if more
      than a hundred are due, and then one that was never attempted gives way to such ones only. */
  lemma BatchIsSoundAndComplete(s: State, orders: Orders, now: Time)
    requires EnumerateAll(orders, s.rows)
    ensures var ids := First(BATCH, AllSelected(s, orders, now));
            && |ids| <= BATCH && NoDuplicates(ids)
            && (forall id :: id in ids ==> Due(s, id, now))
            && (|DueIds(s, now)| <= BATCH ==> forall id :: id in DueIds(s, now) ==> id in ids)
            && ((exists id :: id in DueIds(s, now) && Matches(s, id, NewOnes, now) && id !in ids)
                ==> forall id :: id in ids ==> Matches(s, id, NewOnes, now))
  {
    var all, unsent := AllSelected(s, orders, now), Selected(s, orders(NewOnes), NewOnes, now);
    AllSelectedAreDue(s, orders, now);
    SelectedMatches(s, orders(NewOnes), NewOnes, now);
    DistinctCount(all, DueIds(s, now));
    assert all[..|unsent|] == unsent;
    assert forall id :: id in First(BATCH, all) ==> id in all;
    if |unsent| <= BATCH {
      assert forall id :: id in unsent ==> id in First(BATCH, all);
    }
  }

  function MatchingIds(s: State, query: Query, now: Time): set<Id> {
    set id | id in s.rows && Matches(s, id, query, now)
  }

  /** The queries' shares of a batch. */
  lemma BatchSplits(a: seq<Id>, b: seq<Id>, c: seq<Id>)
    ensures var unsent, rest := Min(100, |a|), 100 - Min(100, |a|);
            var again := Min(rest, |b|);
            First(BATCH, a + b + c) == a[..unsent] + b[..again] + c[..Min(rest - again, |c|)]
  {
  }

  lemma PrefixIsDistinct(ids: seq<Id>, n: nat)
    requires NoDuplicates(ids) && n <= |ids|
    ensures NoDuplicates(ids[..n]) && forall id :: id in ids[..n] ==> id in ids
  {
  }

  /** A batch is full, up to a hundred, of the deliveries that are due: the new ones first, then those to be
      retried, and the rest from the stale ones. */
  lemma BatchIsFull(s: State, orders: Orders, now: Time)
    requires EnumerateAll(orders, s.rows)
    ensures var ids := First(BATCH, AllSelected(s, orders, now));
            var unsent := Min(100, |MatchingIds(s, NewOnes, now)|);
            && |ids| == Min(100, |DueIds(s, now)|)
            && |set id | id in ids && Matches(s, id, NewOnes, now)| == unsent
            && |set id | id in ids && Matches(s, id, Retries, now)| == Min(100 - unsent, |MatchingIds(s, Retries, now)|)
  {
    var a, b, c := Selected(s, orders(NewOnes), NewOnes, now), Selected(s, orders(Retries), Retries, now), Selected(s, orders(Stale), Stale, now);
    var ids := First(BATCH, AllSelected(s, orders, now));
    SelectedMatches(s, orders(NewOnes), NewOnes, now);
    SelectedMatches(s, orders(Retries), Retries, now);
    SelectedMatches(s, orders(Stale), Stale, now);
    AllSelectedAreDue(s, orders, now);
    DistinctCount(AllSelected(s, orders, now), DueIds(s, now));
    DistinctCount(a, MatchingIds(s, NewOnes, now));
    DistinctCount(b, MatchingIds(s, Retries, now));
    BatchSplits(a, b, c);
    var unsent := Min(100, |a|);
    var again := Min(100 - unsent, |b|);
    PrefixIsDistinct(a, unsent);
    PrefixIsDistinct(b, again);
    PrefixIsDistinct(c, Min(100 - unsent - again, |c|));
    DistinctCount(a[..unsent], set id | id in ids && Matches(s, id, NewOnes, now));
    DistinctCount(b[..again], set id | id in ids && Matches(s, id, Retries, now));
  }

  // ---------------------------------------------------------------------------------------
  // The stored deliveries
  // ---------------------------------------------------------------------------------------

  /** One attempt of a task in line: how long until it starts, how long it takes, how it ends. */
  datatype Attempt = Attempt(wait: nat, took: nat, outcome: Outcome)

  datatype Reservation = Missing | Busy | Taken(attempt: nat)

  predicate SettledBy(before: Delivery, after: Delivery, outcome: Outcome) {
    && after.attempts == before.attempts + 1
    && after.status == (if outcome.Delivered? then Succeeded
                       else if after.attempts >= MAX_ATTEMPTS then Abandoned else Failed)
  }

  lemma AttemptSettles(rows: map<Id, Delivery>, id: Id, from: Time, outcome: Outcome, to: Time)
    requires id in rows
    ensures var taken := rows[id := Reserved(rows[id], from)];
            var settled := taken[id := Settled(taken[id], taken[id].attempts, outcome, to)];
            && settled.Keys == rows.Keys && settled == rows[id := settled[id]]
            && SettledBy(rows[id], settled[id], outcome)
  {
  }

  /** Exactly the rows of `ids` have had one attempt each, with the outcome planned for them. */
  predicate Attempted(before: map<Id, Delivery>, after: map<Id, Delivery>, ids: seq<Id>, plan: Id -> Attempt) {
    && after.Keys == before.Keys
    && forall id :: id in before ==>
         if id in ids then SettledBy(before[id], after[id], plan(id).outcome) else after[id] == before[id]
  }

  lemma OneMoreAttempted(before: map<Id, Delivery>, mid: map<Id, Delivery>, after: map<Id, Delivery>, ids: seq<Id>,
                         i: nat, plan: Id -> Attempt)
    requires i < |ids| && NoDuplicates(ids) && ids[i] in before
    requires Attempted(before, mid, ids[..i], plan)
    requires after.Keys == mid.Keys && after == mid[ids[i] := after[ids[i]]]
    requires SettledBy(mid[ids[i]], after[ids[i]], plan(ids[i]).outcome)
    ensures Attempted(before, after, ids[..i + 1], plan)
  {
    PrefixGrows(ids, i);
  }

  lemma DueStaysDue(before: State, after: State, id: Id)
    requires Due(before, id, before.now) && before.now <= after.now && before.active == after.active
    requires id in after.rows && after.rows[id] == before.rows[id]
    ensures Due(after, id, after.now)
  {
  }

  class WebhookTable {
    var now: Time
    var rows: map<Id, Delivery>
    var active: set<nat>
    var workers: map<nat, Worker>
    ghost var log: Run

    function View(): State
      reads this
    {
      State(now, rows, active, workers)
    }

    ghost predicate Valid()
      reads this
    {
      View() == StateOf(log) && Timely(log)
    }

    constructor (at: Time)
      ensures Valid() && log == Start(at)
    {
      now, rows, active, workers, log := at, map[], {}, map[], Start(at);
    }

    /** The transaction at the head of the task. */
    method ReserveDelivery(w: nat, id: Id) returns (result: Reservation)
      requires Valid() && w !in workers
      modifies this
      ensures Valid() && log == Then(old(log), Reserve(w, id))
      ensures result.Missing? <==> id !in old(rows)
      ensures result.Busy? <==>
        && id in old(rows)
        && (|| old(rows)[id].status == Succeeded || old(rows)[id].status == Abandoned
            || (old(rows)[id].status == Processing && old(rows)[id].lastAttemptAt.Some?
                && now < old(rows)[id].lastAttemptAt.value + Seconds(15 * 60)))
      ensures now == old(now) && active == old(active)
      ensures result.Taken? ==>
                && rows == old(rows)[id := Reserved(old(rows)[id], now)]
                && workers == old(workers)[w := Worker(id, result.attempt, now)] && rows[id].attempts == result.attempt
    {
      log := Then(log, Reserve(w, id));
      if id !in rows {
        return Missing;
      }
      var row := rows[id];
      if row.status.Succeeded? || row.status.Abandoned? {
        return Busy;
      }
      if row.status.Processing? && row.lastAttemptAt.Some? && row.lastAttemptAt.value > now - LEASE {
        return Busy;
      }
      row := row.(attempts := row.attempts + 1);
      row := row.(lastAttemptAt := Some(now));
      row := row.(status := Processing);
      rows := rows[id := row];
      workers := workers[w := Worker(id, row.attempts, now)];
      result := Taken(row.attempts);
    }

    /** The save at the end of the task, from what the task remembers. */
    method WriteBack(w: nat, outcome: Outcome)
      requires Valid() && w in workers
      modifies this
      ensures Valid() && log == Then(old(log), Finish(w, outcome))
      ensures now == old(now) && active == old(active) && workers == old(workers) - {w}
      ensures var Worker(id, attempt, _) := old(workers)[w];
              && attempt > 0 && id in old(rows)
              && rows == old(rows)[id := Settled(old(rows)[id], attempt, outcome, now)]
    {
      DeliveryIsExclusive(log);
      assert Holds(View(), w);
      var Worker(id, attempt, _) := workers[w];
      var status, retry := Succeeded, None;
      if outcome.Rejected? {
        if attempt >= MAX_ATTEMPTS {
          status := Abandoned;
        } else {
          status, retry := Failed, Some(now + Seconds(Min(3600, 30 * Pow2(attempt - 1))));
        }
      }
      rows := rows[id := rows[id].(status := status, nextRetryAt := retry)];
      workers := workers - {w};
      log := Then(log, Finish(w, outcome));
    }

    method SelectBatch(orders: Orders) returns (ids: seq<Id>)
      ensures ids == AllSelected(View(), orders, now)[..Min(100, |AllSelected(View(), orders, now)|)]
    {
      ids := First(BATCH, Selected(View(), orders(NewOnes), NewOnes, now));
      ids := ids + First(Max(0, BATCH - |ids|), Selected(View(), orders(Retries), Retries, now));
      ids := ids + First(Max(0, BATCH - |ids|), Selected(View(), orders(Stale), Stale, now));
    }

    method Pass(time: nat)
      requires Valid() && InLine(log)
      requires forall w :: w in workers ==> now + time < workers[w].since + LEASE
      modifies `now, `log
      ensures Valid() && InLine(log) && now == old(now) + time
    {
      now := now + time;
      log := Then(log, Tick(now));
    }

    /** The task run in line: nothing else happens between its steps. */
    method Deliver(id: Id, attempt: Attempt)
      requires Valid() && InLine(log) && workers == map[] && attempt.took < LEASE
      requires Due(View(), id, now)
      modifies this
      ensures Valid() && InLine(log) && workers == map[] && now >= old(now) && active == old(active)
      ensures rows.Keys == old(rows).Keys && SettledBy(old(rows)[id], rows[id], attempt.outcome)
      ensures rows == old(rows)[id := rows[id]]
    {
      DueStaysDue(View(), View().(now := now + attempt.wait), id);
      Pass(attempt.wait);
      DueIsNotSkipped(View(), id, now, now);
      var reservation := ReserveDelivery(0, id);
      assert reservation.Taken?;
      Pass(attempt.took);
      AttemptSettles(old(rows), id, workers[0].since, attempt.outcome, now);
      WriteBack(0, attempt.outcome);
    }

    /** The tasks of a batch, one after the other. */
    method RunTasks(ids: seq<Id>, plan: Id -> Attempt)
      requires Valid() && InLine(log) && workers == map[] && NoDuplicates(ids)
      requires forall id :: id in ids ==> Due(View(), id, now)
      requires forall id :: plan(id).took < LEASE
      modifies this
      ensures Valid() && InLine(log) && workers == map[] && Attempted(old(rows), rows, ids, plan)
    {
      ghost var first := View();
      for i := 0 to |ids|
        invariant Valid() && InLine(log) && workers == map[] && active == first.active && now >= first.now
        invariant Attempted(first.rows, rows, ids[..i], plan)
      {
        var id := ids[i];
        ghost var mid := rows;
        PrefixGrows(ids, i);
        DueStaysDue(first, View(), id);
        Deliver(id, plan(id));
        OneMoreAttempted(first.rows, mid, rows, ids, i, plan);
      }
      assert ids[..|ids|] == ids;
    }

    /** One pass of a single dispatcher that runs its tasks in line. */
    method DispatchPending(enabled: bool, orders: Orders, plan: Id -> Attempt) returns (count: nat)
      requires Valid() && InLine(log) && workers == map[] && EnumerateAll(orders, rows)
      requires forall id :: plan(id).took < LEASE
      modifies this
      ensures Valid() && InLine(log) && workers == map[]
      ensures var ids := if enabled then First(100, AllSelected(old(View()), orders, old(now))) else [];
              Attempted(old(rows), rows, ids, plan) && count == |ids|
      ensures count == if enabled then Min(100, |DueIds(old(View()), old(now))|) else 0
    {
      if !enabled {
        return 0;
      }
      var ids := SelectBatch(orders);
      BatchIsSoundAndComplete(View(), orders, now);
      BatchIsFull(View(), orders, now);
      RunTasks(ids, plan);
      count := |ids|;
    }
  }
}
