/**
 The database counters refine the history of failures; what follows for the lock that an
 account is given, for the time that a caller is told to wait and for the guess rate.
 */
module ThrottleHistory {
  import opened Common
  import opened Throttle

  // ---------------------------------------------------------------------------------------
  // The counter is the length of the latest streak of failures
  // ---------------------------------------------------------------------------------------

  /** The last `k` failures follow each other by less than the backoff. */
  predicate Tight(cfg: Policy, h: seq<Time>, k: nat) {
    k <= |h| && forall i :: |h| - k < i < |h| ==> h[i] - h[i - 1] < Backoff(cfg)
  }

  function Streak(cfg: Policy, h: seq<Time>): nat {
    if |h| == 0 then 0
    else if |h| > 1 && Last(h) - h[|h| - 2] < Backoff(cfg) then Streak(cfg, Front(h)) + 1
    else 1
  }

  /** `Streak` is the largest length of a tight suffix, and every shorter suffix is tight too. */
  lemma {:induction false} StreakIsLongestTightSuffix(cfg: Policy, h: seq<Time>, k: nat)
    ensures Tight(cfg, h, k) <==> k <= Streak(cfg, h)
  {
    if |h| > 0 && k > 0 {
      StreakIsLongestTightSuffix(cfg, Front(h), k - 1);
      if |h| > 1 && Last(h) - h[|h| - 2] < Backoff(cfg) {
        assert Tight(cfg, h, k) <==> Tight(cfg, Front(h), k - 1);
      } else if k > 1 && k <= |h| {
        assert Last(h) - h[|h| - 2] >= Backoff(cfg) && |h| - k < |h| - 1 < |h|;
      }
    }
  }

  /** The row of a dimension, read as a statement about that dimension's failures. */
  predicate RowTells(cfg: Policy, row: Option<Row>, h: seq<Time>, clock: Time) {
    match row
    case None => |h| == 0 || Last(h) + Backoff(cfg) < clock
    case Some(r) =>
      && |h| > 0
      && r == Row(Streak(cfg, h), LockUntil(cfg, Streak(cfg, h), Last(h)), Last(h) + Backoff(cfg))
  }

  lemma StreakGrows(cfg: Policy, h: seq<Time>, at: Time)
    ensures Streak(cfg, h + [at]) == (if |h| > 0 && at - Last(h) < Backoff(cfg) then Streak(cfg, h) else 0) + 1
  {
    var grown := h + [at];
    assert Front(grown) == h && Last(grown) == at;
    assert |h| > 0 ==> grown[|grown| - 2] == Last(h);
  }

  lemma BumpTells(cfg: Policy, row: Option<Row>, h: seq<Time>, clock: Time, at: Time)
    requires RowTells(cfg, row, h, clock) && clock <= at
    ensures RowTells(cfg, Some(Bump(cfg, row, at)), h + [at], at)
  {
    StreakGrows(cfg, h, at);
  }

  lemma {:induction false} CounterRefinesHistory(cfg: Policy, run: Run, d: Dim)
    requires Timed(run)
    ensures RowTells(cfg, Find(TableOf(cfg, run), d), Failures(run, d), Clock(run))
  {
    if run.Then? {
      var table, at := TableOf(cfg, run.before), run.step.at;
      CounterRefinesHistory(cfg, run.before, d);
      if run.step.Fail? {
        var dims := Dimensions(run.step.who, run.step.ip);
        WrittenFind(table, dims, Bumps(cfg, table, at), d);
        BumpTells(cfg, Find(table, d), Failures(run.before, d), Clock(run.before), at);
      }
    }
  }

  /** After a failure the three rows hold the streaks that end with it. */
  lemma FailureCounts(cfg: Policy, run: Run, who: string, ip: Option<string>, at: Time, d: Dim)
    requires Timed(Then(run, Fail(who, ip, at))) && d in Dimensions(who, ip)
    ensures d in TableOf(cfg, Then(run, Fail(who, ip, at)))
    ensures TableOf(cfg, Then(run, Fail(who, ip, at)))[d].attempts == Streak(cfg, Failures(run, d) + [at])
  {
    CounterRefinesHistory(cfg, Then(run, Fail(who, ip, at)), d);
  }

  /** The account is reported as locked exactly when the identifier's own latest failures, this one
      included, form a tight series of at least the maximum, whatever happened on the address. */
  lemma AccountLockedByOwnFailuresOnly(cfg: Policy, run: Run, who: string, ip: Option<string>, at: Time)
    requires Timed(Then(run, Fail(who, ip, at)))
    ensures Answer(cfg, TableOf(cfg, run), Fail(who, ip, at)).value.accountLocked
       <==> Tight(cfg, Failures(run, ById(who)) + [at], cfg.maxAttempts)
  {
    var table := TableOf(cfg, Then(run, Fail(who, ip, at)));
    var dims := Dimensions(who, ip);
    var f := AccountMeter(cfg, table);
    assert dims[0] == ById(who);
    FailureCounts(cfg, run, who, ip, at, ById(who));
    LongestBounds(dims, f);
    assert f(ById(who)) == LockSeconds(cfg, table[ById(who)].attempts);
    assert forall d :: d in dims && d != ById(who) ==> f(d) == 0;
    LockSecondsBounds(cfg, table[ById(who)].attempts);
    StreakIsLongestTightSuffix(cfg, Failures(run, ById(who)) + [at], cfg.maxAttempts);
  }

  // ---------------------------------------------------------------------------------------
  // Who shares counters with whom
  // ---------------------------------------------------------------------------------------

  lemma OthersKeepRow(cfg: Policy, table: Table, step: Step, d: Dim)
    requires !step.Cleanup? && d !in Dimensions(step.who, step.ip)
    ensures Find(Apply(cfg, table, step), d) == Find(table, d)
  {
    if step.Fail? {
      WrittenFind(table, Dimensions(step.who, step.ip), Bumps(cfg, table, step.at), d);
    }
  }

  /** No address is known, or one that reads like that. */
  predicate Unnamed(ip: Option<string>) {
    ip == None || ip == Some("") || ip == Some("unknown")
  }

  predicate SameAddress(a: Option<string>, b: Option<string>) {
    a == b || (Unnamed(a) && Unnamed(b))
  }

  /** Two callers share the identifier's counter, the address's counter and the counter of the combination
      exactly when they have the same identifier, the same address, and both. */
  lemma CountersSharedIff(who: string, ip: Option<string>, other: string, address: Option<string>)
    ensures var mine, theirs := Dimensions(who, ip), Dimensions(other, address);
            && |mine| == 3 && NoDuplicates(mine)
            && (mine[0] in theirs <==> who == other)
            && (mine[1] in theirs <==> SameAddress(ip, address))
            && (mine[2] in theirs <==> who == other && SameAddress(ip, address))
  {
    var theirs := Dimensions(other, address);
    assert theirs[0] in theirs && theirs[1] in theirs && theirs[2] in theirs;
  }

  /** A failure or a success of another identifier at another address changes neither the caller's histories
      nor the answer to any of its checks. */
  lemma StrangersDoNotMatter(cfg: Policy, run: Run, step: Step, who: string, ip: Option<string>, now: Time)
    requires (step.Fail? || step.Reset?) && step.who != who && !SameAddress(ip, step.ip)
    ensures forall d :: d in Dimensions(who, ip) ==> Failures(Then(run, step), d) == Failures(run, d)
    ensures CheckDatabase(TableOf(cfg, Then(run, step)), Dimensions(who, ip), now)
         == CheckDatabase(TableOf(cfg, run), Dimensions(who, ip), now)
  {
    var table, after, dims := TableOf(cfg, run), TableOf(cfg, Then(run, step)), Dimensions(who, ip);
    CountersSharedIff(who, ip, step.who, step.ip);
    forall d | d in dims
      ensures WaitMeter(after, now)(d) == WaitMeter(table, now)(d)
    {
      OthersKeepRow(cfg, table, step, d);
    }
    LongestCongruent(dims, WaitMeter(after, now), WaitMeter(table, now));
  }

  // ---------------------------------------------------------------------------------------
  // The wait that is reported is the wait that is served
  // ---------------------------------------------------------------------------------------

  lemma WaitAfterFailure(cfg: Policy, run: Run, who: string, ip: Option<string>, at: Time, d: Dim)
    requires d in Dimensions(who, ip)
    ensures var table := TableOf(cfg, Then(run, Fail(who, ip, at)));
            WaitOf(table, d, at) == LockOf(cfg, table, d)
  {
    var table := TableOf(cfg, Then(run, Fail(who, ip, at)));
    WrittenFind(TableOf(cfg, run), Dimensions(who, ip), Bumps(cfg, TableOf(cfg, run), at), d);
    assert Find(table, d) == Some(Bump(cfg, Find(TableOf(cfg, run), d), at));
    var lock := LockSeconds(cfg, table[d].attempts);
    assert WholeSeconds(Seconds(lock)) == lock;
  }

  /** A check at the instant of a failure gives the answer that the failure was given. */
  lemma CheckRepeatsFailure(cfg: Policy, run: Run, who: string, ip: Option<string>, at: Time)
    ensures var told := Answer(cfg, TableOf(cfg, run), Fail(who, ip, at)).value;
            var asked := Answer(cfg, TableOf(cfg, Then(run, Fail(who, ip, at))), Check(who, ip, at)).value;
            asked.locked == told.locked && asked.retryAfter == told.retryAfter
  {
    var table := TableOf(cfg, Then(run, Fail(who, ip, at)));
    var dims := Dimensions(who, ip);
    forall d | d in dims
      ensures WaitOf(table, d, at) == LockOf(cfg, table, d)
    {
      WaitAfterFailure(cfg, run, who, ip, at, d);
    }
    LongestCongruent(dims, WaitMeter(table, at), LockMeter(cfg, table));
  }

  /** A row of one of the dimensions whose lock is to last `wait` seconds, rounded down but at least one. */
  predicate Waits(table: Table, dims: seq<Dim>, now: Time, wait: nat) {
    exists d :: d in dims && d in table && table[d].lockedUntil.Some? && table[d].lockedUntil.value > now
                && wait == Max(1, (table[d].lockedUntil.value - now) / 1_000_000)
  }

  /** A check reports a lock exactly when one of the dimensions has one that is running, with the longest of
      the waits; it never speaks of the account. */
  lemma CheckTellsLongestWait(table: Table, dims: seq<Dim>, now: Time)
    ensures var told := CheckDatabase(table, dims, now);
            && !told.accountLocked
            && (told.locked <==> exists d :: d in dims && d in table && table[d].lockedUntil.Some? && table[d].lockedUntil.value > now)
            && (told.locked ==> Waits(table, dims, now, told.retryAfter))
            && (!told.locked ==> told.retryAfter == 0)
            && forall wait: nat :: Waits(table, dims, now, wait) ==> wait <= told.retryAfter
  {
    var f := WaitMeter(table, now);
    LongestBounds(dims, f);
    if d :| d in dims && d in table && table[d].lockedUntil.Some? && table[d].lockedUntil.value > now {
      assert f(d) > 0;
    }
    forall wait: nat | Waits(table, dims, now, wait)
      ensures wait <= Longest(dims, f)
    {
      var d :| d in dims && d in table && table[d].lockedUntil.Some? && table[d].lockedUntil.value > now
               && wait == Max(1, (table[d].lockedUntil.value - now) / 1_000_000);
      assert f(d) == wait;
    }
    if Longest(dims, f) > 0 {
      var d :| d in dims && f(d) == Longest(dims, f);
      assert Waits(table, dims, now, f(d));
    }
  }

  /** `run` continues `earlier` without a failure on any of `dims`. */
  predicate Quiet(earlier: Run, run: Run, dims: seq<Dim>) {
    || earlier == run
    || (run.Then? && Quiet(earlier, run.before, dims)
        && (run.step.Fail? ==> forall d :: d in dims ==> d !in Dimensions(run.step.who, run.step.ip)))
  }

  lemma {:induction false} QuietRowsStay(cfg: Policy, earlier: Run, run: Run, dims: seq<Dim>, d: Dim)
    requires Quiet(earlier, run, dims) && d in dims
    ensures var row := Find(TableOf(cfg, run), d);
            row.None? || row == Find(TableOf(cfg, earlier), d)
  {
    if earlier != run {
      QuietRowsStay(cfg, earlier, run.before, dims, d);
      if run.step.Fail? {
        var table := TableOf(cfg, run.before);
        WrittenFind(table, Dimensions(run.step.who, run.step.ip), Bumps(cfg, table, run.step.at), d);
      }
    }
  }

  lemma WaitShrinks(a: Table, b: Table, dims: seq<Dim>, asked: Time, later: Time)
    requires asked <= later
    requires forall d :: d in dims ==> Find(b, d).None? || Find(b, d) == Find(a, d)
    ensures CheckDatabase(b, dims, later).retryAfter <= CheckDatabase(a, dims, asked).retryAfter
    ensures later >= asked + Seconds(CheckDatabase(a, dims, asked).retryAfter + 1) ==> !CheckDatabase(b, dims, later).locked
  {
    var first, second := WaitMeter(a, asked), WaitMeter(b, later);
    LongestBounds(dims, first);
    LongestBounds(dims, second);
    forall d | d in dims
      ensures second(d) <= first(d)
      ensures second(d) > 0 ==> later < asked + Seconds(first(d) + 1)
    {
      assert Find(b, d).None? || Find(b, d) == Find(a, d);
    }
    if Longest(dims, second) > 0 {
      var d :| d in dims && second(d) == Longest(dims, second);
      assert first(d) <= Longest(dims, first);
    }
  }

  /** While the caller adds no failure to its dimensions, whatever else happens, the wait of a check never
      grows; it is over once the wait first reported, and one second more for the truncated fraction, have
      gone by. */
  lemma RetryAfterIsHonest(cfg: Policy, earlier: Run, run: Run, dims: seq<Dim>, asked: Time, later: Time)
    requires Quiet(earlier, run, dims) && asked <= later
    ensures var first := CheckDatabase(TableOf(cfg, earlier), dims, asked).retryAfter;
            && CheckDatabase(TableOf(cfg, run), dims, later).retryAfter <= first
            && (later >= asked + Seconds(first + 1) ==> !CheckDatabase(TableOf(cfg, run), dims, later).locked)
  {
    forall d | d in dims
      ensures Find(TableOf(cfg, run), d).None? || Find(TableOf(cfg, run), d) == Find(TableOf(cfg, earlier), d)
    {
      QuietRowsStay(cfg, earlier, run, dims, d);
    }
    WaitShrinks(TableOf(cfg, earlier), TableOf(cfg, run), dims, asked, later);
  }

  // ---------------------------------------------------------------------------------------
  // The guess rate
  // ---------------------------------------------------------------------------------------

  /** The latest step of the identifier was a check from this address that reported no lock. Clean-ups and the
      steps of other identifiers may have followed. */
  predicate Admitted(cfg: Policy, run: Run, who: string, ip: Option<string>) {
    match run
    case Start(_) => false
    case Then(before, Cleanup(_)) => Admitted(cfg, before, who, ip)
    case Then(before, step) =>
      if step.who != who then Admitted(cfg, before, who, ip)
      else step.Check? && step.ip == ip && !CheckDatabase(TableOf(cfg, before), Dimensions(who, ip), step.at).locked
  }

  /** Logins are sequential for each identifier: a failure is registered only by a login that its own check let
      through, and no other login with the same identifier comes between the two. */
  predicate Guarded(cfg: Policy, run: Run) {
    match run
    case Start(_) => true
    case Then(before, Fail(who, ip, _)) => Guarded(cfg, before) && Admitted(cfg, before, who, ip)
    case Then(before, _) => Guarded(cfg, before)
  }

  /** Nobody has failed or succeeded since the identifier's latest check. */
  predicate NoResultSinceCheck(run: Run, who: string) {
    match run
    case Then(before, Cleanup(_)) => NoResultSinceCheck(before, who)
    case Then(before, Check(asker, _, _)) => asker == who || NoResultSinceCheck(before, who)
    case _ => false
  }

  /** An admitted login finds no running lock on its identifier and combination, whatever others do, and none
      on its address either if nobody has failed or succeeded since the check. */
  lemma {:induction false} AdmittedIsUnlocked(cfg: Policy, run: Run, who: string, ip: Option<string>, d: Dim)
    requires Timed(run) && Admitted(cfg, run, who, ip) && d in Dimensions(who, ip)
    requires d.ByIp? ==> NoResultSinceCheck(run, who)
    ensures var row := Find(TableOf(cfg, run), d);
            row.Some? && row.value.lockedUntil.Some? ==> row.value.lockedUntil.value <= Clock(run)
  {
    var before, step := run.before, run.step;
    if !step.Cleanup? && step.who == who {
      LongestBounds(Dimensions(who, ip), WaitMeter(TableOf(cfg, before), step.at));
      assert WaitMeter(TableOf(cfg, before), step.at)(d) == 0;
    } else {
      AdmittedIsUnlocked(cfg, before, who, ip, d);
      if step.Fail? || step.Reset? {
        OthersKeepRow(cfg, TableOf(cfg, before), step, d);
      }
    }
  }

  /** A streak shorter than `n` leaves a gap of a full backoff among the last `n` instants. */
  lemma LooseHistory(cfg: Policy, h: seq<Time>, n: nat)
    requires Sorted(h) && 0 < n <= |h| && Streak(cfg, h) < n
    ensures Last(h) - h[|h| - n] >= Backoff(cfg)
  {
    StreakIsLongestTightSuffix(cfg, h, n);
    var i :| |h| - n < i < |h| && h[i] - h[i - 1] >= Backoff(cfg);
    assert h[|h| - n] <= h[i - 1] && h[i] <= Last(h);
  }

  /** A failure that the check let through comes at least a spacing after the failure that is
      LOGIN_MAX_ATTEMPTS before it, if no successful login lies between them. */
  lemma NextFailureIsSpaced(cfg: Policy, run: Run, who: string, ip: Option<string>, at: Time)
    requires Timed(Then(run, Fail(who, ip, at))) && Admitted(cfg, run, who, ip)
    ensures var h := Failures(run, ById(who));
            |h| >= cfg.maxAttempts ==> at - h[|h| - cfg.maxAttempts] >= Spacing(cfg)
  {
    var h, n := Failures(run, ById(who)), cfg.maxAttempts;
    CounterRefinesHistory(cfg, run, ById(who));
    FailuresSorted(run, ById(who));
    if |h| >= n {
      if Streak(cfg, h) < n {
        LooseHistory(cfg, h, n);
      } else {
        assert Dimensions(who, ip)[0] == ById(who);
        AdmittedIsUnlocked(cfg, run, who, ip, ById(who));
        LockSecondsBounds(cfg, Streak(cfg, h));
      }
    }
  }

  /** Any `n` + 1 consecutive instants span at least `gap`. */
  predicate Spaced(h: seq<Time>, n: nat, gap: Time) {
    forall i :: 0 <= i < |h| - n ==> h[i + n] - h[i] >= gap
  }

  /** Any LOGIN_MAX_ATTEMPTS + 1 consecutive failures of an identifier since its last successful login, from
      whatever addresses and with clean-ups anywhere, span at least the policy's spacing. */
  lemma {:induction false} FailuresAreSpaced(cfg: Policy, run: Run, who: string)
    requires Timed(run) && Guarded(cfg, run)
    ensures Spaced(Failures(run, ById(who)), cfg.maxAttempts, Spacing(cfg))
  {
    match run
    case Start(_) =>
    case Then(before, Fail(asker, ip, at)) =>
      FailuresAreSpaced(cfg, before, who);
      if asker == who {
        assert ById(who) == Dimensions(asker, ip)[0];
        NextFailureIsSpaced(cfg, before, who, ip, at);
      }
    case Then(before, _) =>
      FailuresAreSpaced(cfg, before, who);
  }

  lemma {:induction false} BlocksAreSpaced(h: seq<Time>, n: nat, gap: Time, i: nat, blocks: nat)
    requires Spaced(h, n, gap) && i + n * blocks < |h|
    ensures h[i + n * blocks] - h[i] >= gap * blocks
  {
    if blocks > 0 {
      var j := i + n * (blocks - 1);
      assert j + n == i + n * blocks;
      BlocksAreSpaced(h, n, gap, i, blocks - 1);
      assert h[j + n] - h[j] >= gap;
      assert gap * blocks == gap * (blocks - 1) + gap;
    }
  }

  lemma TooManyBlocks(span: nat, window: nat, spacing: nat, blocks: nat)
    requires spacing > 0 && span <= window && blocks == window / spacing + 1
    ensures span < spacing * blocks
  {
  }

  lemma SpacedCount(h: seq<Time>, n: nat, gap: Time, lo: nat, hi: nat, window: nat)
    requires Sorted(h) && Spaced(h, n, gap) && gap > 0
    requires lo <= hi < |h| && h[hi] - h[lo] <= window
    ensures hi - lo + 1 <= n * (window / gap + 1)
  {
    var blocks := window / gap + 1;
    if hi - lo >= n * blocks {
      BlocksAreSpaced(h, n, gap, lo, blocks);
      assert h[lo + n * blocks] <= h[hi];
      TooManyBlocks(h[hi] - h[lo], window, gap, blocks);
      assert false;
    }
  }

  /** Since an identifier's last successful login, a window of length `window` holds at most
      LOGIN_MAX_ATTEMPTS * (window / spacing + 1) of its failures. */
  lemma GuessRateIsBounded(cfg: Policy, run: Run, who: string, lo: nat, hi: nat, window: nat)
    requires Timed(run) && Guarded(cfg, run)
    requires lo <= hi < |Failures(run, ById(who))|
    requires Failures(run, ById(who))[hi] - Failures(run, ById(who))[lo] <= window
    ensures hi - lo + 1 <= cfg.maxAttempts * (window / Spacing(cfg) + 1)
  {
    FailuresSorted(run, ById(who));
    FailuresAreSpaced(cfg, run, who);
    SpacedCount(Failures(run, ById(who)), cfg.maxAttempts, Spacing(cfg), lo, hi, window);
  }

  // ---------------------------------------------------------------------------------------
  // The guess rate across successful logins
  // ---------------------------------------------------------------------------------------

  /** All failures of an identifier at or after an instant. */
  function FailedFrom(run: Run, who: string, from: Time): nat {
    match run
    case Start(_) => 0
    case Then(before, Fail(asker, _, at)) =>
      FailedFrom(before, who, from) + if asker == who && at >= from then 1 else 0
    case Then(before, _) => FailedFrom(before, who, from)
  }

  /** Its successful logins at or after that instant. */
  function ResetsFrom(run: Run, who: string, from: Time): nat {
    match run
    case Start(_) => 0
    case Then(before, Reset(asker, _, at)) =>
      ResetsFrom(before, who, from) + if asker == who && at >= from then 1 else 0
    case Then(before, _) => ResetsFrom(before, who, from)
  }

  predicate SpacedThroughout(run: Run, who: string, n: nat, gap: Time) {
    Spaced(Failures(run, ById(who)), n, gap) && (run.Then? ==> SpacedThroughout(run.before, who, n, gap))
  }

  lemma {:induction false} GuardedIsSpacedThroughout(cfg: Policy, run: Run, who: string)
    requires Timed(run) && Guarded(cfg, run)
    ensures SpacedThroughout(run, who, cfg.maxAttempts, Spacing(cfg))
  {
    FailuresAreSpaced(cfg, run, who);
    if run.Then? {
      GuardedIsSpacedThroughout(cfg, run.before, who);
    }
  }

  function CountFrom(h: seq<Time>, from: Time): nat {
    if |h| == 0 then 0 else CountFrom(Front(h), from) + if Last(h) >= from then 1 else 0
  }

  lemma {:induction false} CountFromIsSuffix(h: seq<Time>, from: Time)
    requires Sorted(h)
    ensures CountFrom(h, from) <= |h|
    ensures CountFrom(h, from) > 0 ==> h[|h| - CountFrom(h, from)] >= from
  {
    if |h| > 0 {
      CountFromIsSuffix(Front(h), from);
    }
  }

  lemma CountFromIsBounded(h: seq<Time>, n: nat, gap: Time, from: Time, window: nat)
    requires Sorted(h) && Spaced(h, n, gap) && gap > 0 && (|h| > 0 ==> Last(h) <= from + window)
    ensures CountFrom(h, from) <= n * (window / gap + 1)
  {
    CountFromIsSuffix(h, from);
    if CountFrom(h, from) > 0 {
      SpacedCount(h, n, gap, |h| - CountFrom(h, from), |h| - 1, window);
    }
  }

  lemma {:induction false} NothingFromLater(run: Run, who: string, from: Time)
    requires Timed(run) && Clock(run) < from
    ensures FailedFrom(run, who, from) == 0
  {
    if run.Then? {
      NothingFromLater(run.before, who, from);
    }
  }

  lemma OneMoreBlock(times: nat, block: nat)
    ensures (times + 1) * block == times * block + block
  {
  }

  /** Between two successful logins a window holds a block of failures at most. */
  lemma SinceResetIsBounded(run: Run, who: string, n: nat, gap: Time, from: Time, window: nat)
    requires Timed(run) && SpacedThroughout(run, who, n, gap) && gap > 0 && Clock(run) <= from + window
    ensures CountFrom(Failures(run, ById(who)), from) <= n * (window / gap + 1)
  {
    FailuresSorted(run, ById(who));
    CountFromIsBounded(Failures(run, ById(who)), n, gap, from, window);
  }

  lemma StepAddsGuess(run: Run, who: string, from: Time)
    requires run.Then? && Timed(run) && !(run.step.Reset? && run.step.who == who)
    ensures ResetsFrom(run, who, from) == ResetsFrom(run.before, who, from)
    ensures FailedFrom(run, who, from) - CountFrom(Failures(run, ById(who)), from)
         == FailedFrom(run.before, who, from) - CountFrom(Failures(run.before, ById(who)), from)
  {
    var h := Failures(run.before, ById(who));
    if run.step.Fail? && run.step.who == who {
      assert Dimensions(who, run.step.ip)[0] == ById(who);
      assert Front(h + [run.step.at]) == h;
    }
  }

  lemma {:induction false} GuessesAdd(run: Run, who: string, n: nat, gap: Time, from: Time, window: nat, block: nat)
    requires Timed(run) && SpacedThroughout(run, who, n, gap) && gap > 0
    requires Clock(run) <= from + window && block == n * (window / gap + 1)
    ensures FailedFrom(run, who, from) <= ResetsFrom(run, who, from) * block + CountFrom(Failures(run, ById(who)), from)
  {
    if run.Then? {
      var before := run.before;
      GuessesAdd(before, who, n, gap, from, window, block);
      if !(run.step.Reset? && run.step.who == who) {
        StepAddsGuess(run, who, from);
      } else if run.step.at < from {
        NothingFromLater(run, who, from);
      } else {
        assert Dimensions(who, run.step.ip)[0] == ById(who);
        SinceResetIsBounded(before, who, n, gap, from, window);
        OneMoreBlock(ResetsFrom(before, who, from), block);
      }
    }
  }

  lemma GuessesAreBounded(run: Run, who: string, n: nat, gap: Time, from: Time, window: nat)
    requires Timed(run) && SpacedThroughout(run, who, n, gap) && gap > 0 && Clock(run) <= from + window
    ensures FailedFrom(run, who, from) <= (ResetsFrom(run, who, from) + 1) * (n * (window / gap + 1))
  {
    var block := n * (window / gap + 1);
    GuessesAdd(run, who, n, gap, from, window, block);
    SinceResetIsBounded(run, who, n, gap, from, window);
    OneMoreBlock(ResetsFrom(run, who, from), block);
  }

  /** All failures of an identifier in the last `window`: at most LOGIN_MAX_ATTEMPTS * (window / spacing + 1)
      for each of its successful logins in that time, and as many again. */
  lemma WindowedGuessesAreBounded(cfg: Policy, run: Run, who: string, from: Time, window: nat)
    requires Timed(run) && Guarded(cfg, run) && Clock(run) <= from + window
    ensures FailedFrom(run, who, from)
         <= (ResetsFrom(run, who, from) + 1) * (cfg.maxAttempts * (window / Spacing(cfg) + 1))
  {
    GuardedIsSpacedThroughout(cfg, run, who);
    GuessesAreBounded(run, who, cfg.maxAttempts, Spacing(cfg), from, window);
  }

  // A bound that leaves the successful logins out is impossible: each of them renews the allowance.

  /** Successful logins pass their checks too. */
  predicate SuccessesAdmitted(cfg: Policy, run: Run) {
    match run
    case Start(_) => true
    case Then(before, Reset(who, ip, _)) => SuccessesAdmitted(cfg, before) && Admitted(cfg, before, who, ip)
    case Then(before, _) => SuccessesAdmitted(cfg, before)
  }

  lemma ShortStreakIsAdmitted(cfg: Policy, run: Run, who: string, ip: Option<string>, at: Time)
    requires Timed(run) && forall d :: d in Dimensions(who, ip) ==> |Failures(run, d)| < cfg.maxAttempts
    ensures Admitted(cfg, Then(run, Check(who, ip, at)), who, ip)
  {
    var dims, f := Dimensions(who, ip), WaitMeter(TableOf(cfg, run), at);
    forall d | d in dims
      ensures f(d) == 0
    {
      CounterRefinesHistory(cfg, run, d);
      StreakIsLongestTightSuffix(cfg, Failures(run, d), Streak(cfg, Failures(run, d)));
    }
    LongestBounds(dims, f);
  }

  /** A login that is checked and fails at once. */
  function Attempted(run: Run, who: string, ip: Option<string>, at: Time): Run {
    Then(Then(run, Check(who, ip, at)), Fail(who, ip, at))
  }

  /** `n` times at one instant: a login that fails, and one that succeeds. */
  function Renewing(who: string, ip: Option<string>, at: Time, n: nat): Run {
    if n == 0 then Start(at)
    else Then(Then(Attempted(Renewing(who, ip, at, n - 1), who, ip, at), Check(who, ip, at)), Reset(who, ip, at))
  }

  lemma FailsOnce(cfg: Policy, run: Run, who: string, ip: Option<string>, at: Time)
    requires Timed(run) && Clock(run) == at && Guarded(cfg, run) && SuccessesAdmitted(cfg, run)
    requires forall d :: d in Dimensions(who, ip) ==> Failures(run, d) == []
    ensures var failed := Attempted(run, who, ip, at);
            && Timed(failed) && Guarded(cfg, failed) && SuccessesAdmitted(cfg, failed)
            && FailedFrom(failed, who, at) == FailedFrom(run, who, at) + 1 && ResetsFrom(failed, who, at) == ResetsFrom(run, who, at)
            && forall d :: d in Dimensions(who, ip) ==> Failures(failed, d) == [at]
  {
    var checked := Then(run, Check(who, ip, at));
    ShortStreakIsAdmitted(cfg, run, who, ip, at);
    assert Timed(checked) && Guarded(cfg, checked) && SuccessesAdmitted(cfg, checked);
    assert FailedFrom(checked, who, at) == FailedFrom(run, who, at) && ResetsFrom(checked, who, at) == ResetsFrom(run, who, at);
  }

  lemma SucceedsOnce(cfg: Policy, run: Run, who: string, ip: Option<string>, at: Time)
    requires Timed(run) && Clock(run) == at && Guarded(cfg, run) && SuccessesAdmitted(cfg, run) && cfg.maxAttempts > 1
    requires forall d :: d in Dimensions(who, ip) ==> Failures(run, d) == [at]
    ensures var passed := Then(Then(run, Check(who, ip, at)), Reset(who, ip, at));
            && Timed(passed) && Guarded(cfg, passed) && SuccessesAdmitted(cfg, passed)
            && FailedFrom(passed, who, at) == FailedFrom(run, who, at) && ResetsFrom(passed, who, at) == ResetsFrom(run, who, at) + 1
            && forall d :: d in Dimensions(who, ip) ==> Failures(passed, d) == []
  {
    var checked := Then(run, Check(who, ip, at));
    ShortStreakIsAdmitted(cfg, run, who, ip, at);
    assert Timed(checked) && Guarded(cfg, checked) && SuccessesAdmitted(cfg, checked);
    assert FailedFrom(checked, who, at) == FailedFrom(run, who, at) && ResetsFrom(checked, who, at) == ResetsFrom(run, who, at);
  }

  /** Where one failure does not lock, any number of them fits into one instant between successful logins, all
      of which pass their checks. */
  lemma {:induction false} SuccessesRenewTheAllowance(cfg: Policy, who: string, ip: Option<string>, at: Time, n: nat)
    requires cfg.maxAttempts > 1
    ensures var run := Renewing(who, ip, at, n);
            && Timed(run) && Clock(run) == at && Guarded(cfg, run) && SuccessesAdmitted(cfg, run)
            && FailedFrom(run, who, at) == ResetsFrom(run, who, at) == n
            && forall d :: d in Dimensions(who, ip) ==> Failures(run, d) == []
  {
    if n > 0 {
      SuccessesRenewTheAllowance(cfg, who, ip, at, n - 1);
      FailsOnce(cfg, Renewing(who, ip, at, n - 1), who, ip, at);
      SucceedsOnce(cfg, Attempted(Renewing(who, ip, at, n - 1), who, ip, at), who, ip, at);
    }
  }
}
