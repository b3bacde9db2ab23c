/**
 The same protection kept in cache keys, and its relation to the database rows: a fixed window
 that starts with the first failure, against one that slides with every failure.
 */
module ThrottleCache {
  import opened Common
  import opened Throttle
  import opened ThrottleHistory

  /** A key is visible strictly before the instant at which it expires. */
  datatype Entry = Entry(count: nat, expiresAt: Time)

  datatype Cache = Cache(attempts: map<Dim, Entry>, locks: map<Dim, Time>)

  predicate Counting(cache: Cache, d: Dim, now: Time) {
    d in cache.attempts && cache.attempts[d].expiresAt > now
  }

  predicate LockedIn(cache: Cache, d: Dim, now: Time) {
    d in cache.locks && cache.locks[d] > now
  }

  /** The instants at which the cache serves one key's calls: `add`; `incr`, when a key that `add` found may
      have expired; `set` for a counter that has; `set` for the lock. */
  datatype Clocks = Clocks(added: Time, counted: Time, restarted: Time, locked: Time)

  /** All calls are served at one instant. */
  function AtOnce(now: Time): Dim -> Clocks {
    d => Clocks(now, now, now, now)
  }

  function Counted(cfg: Policy, cache: Cache, d: Dim, clocks: Clocks): Entry {
    if !Counting(cache, d, clocks.added) then Entry(1, clocks.added + Backoff(cfg))
    else if Counting(cache, d, clocks.counted) then Entry(cache.attempts[d].count + 1, cache.attempts[d].expiresAt)
    else Entry(1, clocks.restarted + Backoff(cfg))
  }

  function CacheLock(cfg: Policy, cache: Cache, d: Dim, clocks: Clocks): nat {
    LockSeconds(cfg, Counted(cfg, cache, d, clocks).count)
  }

  function Counts(cfg: Policy, cache: Cache, clocks: Dim -> Clocks): Dim -> Option<Entry> {
    d => Some(Counted(cfg, cache, d, clocks(d)))
  }

  function Locks(cfg: Policy, cache: Cache, clocks: Dim -> Clocks): Dim -> Option<Time> {
    d => LockUntil(cfg, Counted(cfg, cache, d, clocks(d)).count, clocks(d).locked)
  }

  function CacheRegistered(cfg: Policy, cache: Cache, dims: seq<Dim>, clocks: Dim -> Clocks): Cache {
    Cache(Written(cache.attempts, dims, Counts(cfg, cache, clocks)),
          Written(cache.locks, dims, Locks(cfg, cache, clocks)))
  }

  /** One dimension's share of a registration. */
  function KeyCounted(cfg: Policy, cache: Cache, d: Dim, clocks: Clocks): Cache {
    var entry := Counted(cfg, cache, d, clocks);
    var lock := LockUntil(cfg, entry.count, clocks.locked);
    Cache(cache.attempts[d := entry], if lock.Some? then cache.locks[d := lock.value] else cache.locks)
  }

  function CountLock(cfg: Policy, cache: Cache, d: Dim): nat {
    if d in cache.attempts then LockSeconds(cfg, cache.attempts[d].count) else 0
  }

  function AccountCountLock(cfg: Policy, cache: Cache, d: Dim): nat {
    if d.ById? then CountLock(cfg, cache, d) else 0
  }

  function CountMeter(cfg: Policy, cache: Cache): Dim -> nat {
    d => CountLock(cfg, cache, d)
  }

  function AccountCountMeter(cfg: Policy, cache: Cache): Dim -> nat {
    d => AccountCountLock(cfg, cache, d)
  }

  /** The answer to a failure that has just been counted in `cache`. */
  function CacheImposed(cfg: Policy, cache: Cache, dims: seq<Dim>): LockoutState {
    var longest := Longest(dims, CountMeter(cfg, cache));
    LockoutState(longest > 0, longest, Longest(dims, AccountCountMeter(cfg, cache)) > 0)
  }

  /** `ttl` is what the cache reports of a key's remaining seconds; 0 also stands for no report. */
  function CacheWait(cfg: Policy, cache: Cache, ttl: Dim -> nat, d: Dim, now: Time): nat {
    if LockedIn(cache, d, now) then (if ttl(d) > 0 then ttl(d) else cfg.lockoutSeconds) else 0
  }

  function CacheWaitMeter(cfg: Policy, cache: Cache, ttl: Dim -> nat, now: Time): Dim -> nat {
    d => CacheWait(cfg, cache, ttl, d, now)
  }

  function CheckCache(cfg: Policy, cache: Cache, ttl: Dim -> nat, dims: seq<Dim>, now: Time): LockoutState {
    var wait := Longest(dims, CacheWaitMeter(cfg, cache, ttl, now));
    LockoutState(wait > 0, wait, false)
  }

  function CacheOf(cfg: Policy, run: Run): Cache {
    match run
    case Start(_) => Cache(map[], map[])
    case Then(before, Fail(who, ip, at)) =>
      CacheRegistered(cfg, CacheOf(cfg, before), Dimensions(who, ip), AtOnce(at))
    case Then(before, Reset(who, ip, _)) =>
      Cache(Removed(CacheOf(cfg, before).attempts, Dimensions(who, ip)),
            Removed(CacheOf(cfg, before).locks, Dimensions(who, ip)))
    case Then(before, _) => CacheOf(cfg, before)
  }

  // ---------------------------------------------------------------------------------------
  // One dimension's keys, and the check
  // ---------------------------------------------------------------------------------------

  /** A counter that `add` does not find starts at one; one that it finds grows by one and keeps its end, unless
      it ends before `incr`: then it starts again at one. The lock, if due, runs from its own instant, and a
      failure that is not due one leaves the lock key alone. */
  lemma KeyIsCounted(cfg: Policy, cache: Cache, d: Dim, clocks: Clocks)
    ensures var t := KeyCounted(cfg, cache, d, clocks);
            var was := Find(cache.attempts, d);
            && d in t.attempts
            && t.attempts[d]
               == (if was.None? || was.value.expiresAt <= clocks.added
                  then Entry(1, clocks.added + Seconds(cfg.backoffSeconds))
                  else if was.value.expiresAt <= clocks.counted
                  then Entry(1, clocks.restarted + Seconds(cfg.backoffSeconds))
                  else Entry(was.value.count + 1, was.value.expiresAt))
            && (t.attempts[d].count >= cfg.maxAttempts ==>
                  d in t.locks && t.locks[d] == clocks.locked + Seconds(LockSeconds(cfg, t.attempts[d].count)))
            && (t.attempts[d].count < cfg.maxAttempts ==> t.locks == cache.locks)
            && (forall o :: o != d ==> Find(t.attempts, o) == Find(cache.attempts, o) && Find(t.locks, o) == Find(cache.locks, o))
  {
    LockSecondsBounds(cfg, Counted(cfg, cache, d, clocks).count);
  }

  /** The remaining time of a live lock as the cache reports it, or the lockout time if it reports none. */
  predicate CacheWaits(cfg: Policy, cache: Cache, ttl: Dim -> nat, dims: seq<Dim>, now: Time, wait: nat) {
    exists d :: d in dims && d in cache.locks && cache.locks[d] > now
                && wait == if ttl(d) == 0 then cfg.lockoutSeconds else ttl(d)
  }

  lemma CacheCheckTellsLongestWait(cfg: Policy, cache: Cache, ttl: Dim -> nat, dims: seq<Dim>, now: Time)
    ensures var told := CheckCache(cfg, cache, ttl, dims, now);
            && !told.accountLocked
            && (told.locked <==> exists d :: d in dims && d in cache.locks && cache.locks[d] > now)
            && (told.locked ==> CacheWaits(cfg, cache, ttl, dims, now, told.retryAfter))
            && (!told.locked ==> told.retryAfter == 0)
            && forall wait: nat :: CacheWaits(cfg, cache, ttl, dims, now, wait) ==> wait <= told.retryAfter
  {
    var f := CacheWaitMeter(cfg, cache, ttl, now);
    LongestBounds(dims, f);
    if d :| d in dims && d in cache.locks && cache.locks[d] > now {
      assert f(d) > 0;
    }
    forall wait: nat | CacheWaits(cfg, cache, ttl, dims, now, wait)
      ensures wait <= Longest(dims, f)
    {
      var d :| d in dims && d in cache.locks && cache.locks[d] > now
               && wait == if ttl(d) == 0 then cfg.lockoutSeconds else ttl(d);
      assert f(d) == wait;
    }
    if Longest(dims, f) > 0 {
      var d :| d in dims && f(d) == Longest(dims, f);
      assert CacheWaits(cfg, cache, ttl, dims, now, f(d));
    }
  }

  // ---------------------------------------------------------------------------------------
  // What the keys say about the history
  // ---------------------------------------------------------------------------------------

  /** The current window: how many failures it holds and when it started. */
  datatype Window = Window(count: nat, start: Time)

  function WindowOf(cfg: Policy, h: seq<Time>): Window {
    if |h| == 0 then Window(0, 0)
    else
      var w := WindowOf(cfg, Front(h));
      if w.count > 0 && Last(h) < w.start + Backoff(cfg) then Window(w.count + 1, w.start)
      else Window(1, Last(h))
  }

  /** The end of the lock that the latest locking failure set; later failures may have set none. */
  function LastLock(cfg: Policy, h: seq<Time>): Option<Time> {
    if |h| == 0 then None
    else
      var lock := LockUntil(cfg, WindowOf(cfg, h).count, Last(h));
      if lock.Some? then lock else LastLock(cfg, Front(h))
  }

  predicate KeysTell(cfg: Policy, cache: Cache, d: Dim, h: seq<Time>) {
    && Find(cache.attempts, d)
       == (if |h| == 0 then None else Some(Entry(WindowOf(cfg, h).count, WindowOf(cfg, h).start + Backoff(cfg))))
    && Find(cache.locks, d) == LastLock(cfg, h)
  }

  lemma KeysWritten(cfg: Policy, cache: Cache, dims: seq<Dim>, d: Dim, at: Time)
    requires d in dims
    ensures var grown := CacheRegistered(cfg, cache, dims, AtOnce(at));
            var lock := CacheLock(cfg, cache, d, AtOnce(at)(d));
            && Find(grown.attempts, d) == Some(Counted(cfg, cache, d, AtOnce(at)(d)))
            && Find(grown.locks, d) == if lock > 0 then Some(at + Seconds(lock)) else Find(cache.locks, d)
  {
    WrittenFind(cache.attempts, dims, Counts(cfg, cache, AtOnce(at)), d);
    WrittenFind(cache.locks, dims, Locks(cfg, cache, AtOnce(at)), d);
  }

  lemma WindowNotEmpty(cfg: Policy, h: seq<Time>)
    ensures WindowOf(cfg, h).count > 0 <==> |h| > 0
  {
  }

  lemma WindowGrows(cfg: Policy, h: seq<Time>, at: Time)
    ensures var w, grown := WindowOf(cfg, h), WindowOf(cfg, h + [at]);
            && grown == (if |h| > 0 && at < w.start + Backoff(cfg) then Window(w.count + 1, w.start) else Window(1, at))
            && LastLock(cfg, h + [at])
               == (var lock := LockUntil(cfg, grown.count, at); if lock.Some? then lock else LastLock(cfg, h))
  {
    assert Front(h + [at]) == h;
    WindowNotEmpty(cfg, h);
  }

  lemma KeysAfterFailure(cfg: Policy, cache: Cache, dims: seq<Dim>, d: Dim, h: seq<Time>, at: Time)
    requires d in dims && KeysTell(cfg, cache, d, h)
    ensures KeysTell(cfg, CacheRegistered(cfg, cache, dims, AtOnce(at)), d, h + [at])
  {
    KeysWritten(cfg, cache, dims, d, at);
    WindowGrows(cfg, h, at);
    assert |h| == 0 ==> Find(cache.attempts, d).None?;
    assert Counting(cache, d, at) <==> |h| > 0 && at < WindowOf(cfg, h).start + Backoff(cfg);
  }

  lemma KeysElsewhere(cfg: Policy, cache: Cache, dims: seq<Dim>, d: Dim, at: Time)
    requires d !in dims
    ensures Find(CacheRegistered(cfg, cache, dims, AtOnce(at)).attempts, d) == Find(cache.attempts, d)
    ensures Find(CacheRegistered(cfg, cache, dims, AtOnce(at)).locks, d) == Find(cache.locks, d)
  {
    WrittenFind(cache.attempts, dims, Counts(cfg, cache, AtOnce(at)), d);
    WrittenFind(cache.locks, dims, Locks(cfg, cache, AtOnce(at)), d);
  }

  lemma KeysAfterReset(cfg: Policy, run: Run, d: Dim)
    requires run.Then? && run.step.Reset? && KeysTell(cfg, CacheOf(cfg, run.before), d, Failures(run.before, d))
    ensures KeysTell(cfg, CacheOf(cfg, run), d, Failures(run, d))
  {
    var before, after := CacheOf(cfg, run.before), CacheOf(cfg, run);
    if d in Dimensions(run.step.who, run.step.ip) {
      assert d !in after.attempts && d !in after.locks;
    } else {
      assert Find(after.attempts, d) == Find(before.attempts, d) && Find(after.locks, d) == Find(before.locks, d);
    }
  }

  lemma {:induction false} KeysRefineHistory(cfg: Policy, run: Run, d: Dim)
    ensures KeysTell(cfg, CacheOf(cfg, run), d, Failures(run, d))
  {
    if run.Then? {
      KeysRefineHistory(cfg, run.before, d);
      if run.step.Fail? {
        var dims := Dimensions(run.step.who, run.step.ip);
        if d in dims {
          KeysAfterFailure(cfg, CacheOf(cfg, run.before), dims, d, Failures(run.before, d), run.step.at);
        } else {
          KeysElsewhere(cfg, CacheOf(cfg, run.before), dims, d, run.step.at);
        }
      } else if run.step.Reset? {
        KeysAfterReset(cfg, run, d);
      }
    }
  }

  // ---------------------------------------------------------------------------------------
  // When the two windows count alike
  // ---------------------------------------------------------------------------------------

  /** Each failure falls into its window or comes a full backoff after the failure before it. */
  predicate Aligned(cfg: Policy, h: seq<Time>) {
    |h| > 0 ==>
      && Aligned(cfg, Front(h))
      && (|h| == 1 || Last(h) < WindowOf(cfg, Front(h)).start + Backoff(cfg) || Last(h) - h[|h| - 2] >= Backoff(cfg))
  }

  lemma {:induction false} WindowStartsInHistory(cfg: Policy, h: seq<Time>)
    requires Sorted(h) && |h| > 0
    ensures h[0] <= WindowOf(cfg, h).start <= Last(h)
  {
    if |h| > 1 {
      WindowStartsInHistory(cfg, Front(h));
      assert Last(Front(h)) <= Last(h) && Front(h)[0] == h[0];
    }
  }

  lemma {:induction false} AlignedCountsAgree(cfg: Policy, h: seq<Time>)
    requires Sorted(h) && Aligned(cfg, h)
    ensures Streak(cfg, h) == WindowOf(cfg, h).count
  {
    if |h| > 1 {
      AlignedCountsAgree(cfg, Front(h));
      WindowStartsInHistory(cfg, Front(h));
      WindowNotEmpty(cfg, Front(h));
    }
  }

  predicate CountsAgreeThroughout(cfg: Policy, h: seq<Time>) {
    forall k :: 0 <= k <= |h| ==> Streak(cfg, h[..k]) == WindowOf(cfg, h[..k]).count
  }

  lemma StreakNotEmpty(cfg: Policy, h: seq<Time>)
    ensures Streak(cfg, h) > 0 <==> |h| > 0
  {
  }

  /** Both backends hold the same count all along a history exactly when the history is aligned. */
  lemma {:induction false} CountsAgreeIffAligned(cfg: Policy, h: seq<Time>)
    requires Sorted(h)
    ensures CountsAgreeThroughout(cfg, h) <==> Aligned(cfg, h)
  {
    assert h[..|h|] == h;
    if |h| > 0 {
      var front := Front(h);
      CountsAgreeIffAligned(cfg, front);
      assert forall k :: 0 <= k <= |front| ==> h[..k] == front[..k];
      if Aligned(cfg, h) {
        AlignedCountsAgree(cfg, h);
        forall k | 0 <= k <= |h|
          ensures Streak(cfg, h[..k]) == WindowOf(cfg, h[..k]).count
        {
          assert k < |h| ==> h[..k] == front[..k];
        }
      }
      if CountsAgreeThroughout(cfg, h) {
        forall k | 0 <= k <= |front|
          ensures Streak(cfg, front[..k]) == WindowOf(cfg, front[..k]).count
        {
          assert h[..k] == front[..k];
        }
        assert Streak(cfg, h[..|h|]) == WindowOf(cfg, h[..|h|]).count;
        StreakNotEmpty(cfg, front);
      }
    }
  }

  /** All failures within one backoff of the first are the simplest aligned history. */
  lemma {:induction false} OneWindowIsAligned(cfg: Policy, h: seq<Time>)
    requires forall i :: 0 <= i < |h| ==> h[i] - h[0] < Backoff(cfg)
    ensures Aligned(cfg, h)
    ensures |h| > 0 ==> WindowOf(cfg, h) == Window(|h|, h[0])
  {
    if |h| > 0 {
      assert forall i :: 0 <= i < |Front(h)| ==> Front(h)[i] - Front(h)[0] < Backoff(cfg);
      OneWindowIsAligned(cfg, Front(h));
      assert |h| > 1 ==> Front(h)[0] == h[0] && h[|h| - 1] - h[0] < Backoff(cfg);
    }
  }

  // ---------------------------------------------------------------------------------------
  // The backends answer alike on aligned histories
  // ---------------------------------------------------------------------------------------

  lemma CountsAgreeAfterFailure(cfg: Policy, run: Run, who: string, ip: Option<string>, at: Time, d: Dim)
    requires Timed(Then(run, Fail(who, ip, at))) && d in Dimensions(who, ip)
    requires Aligned(cfg, Failures(run, d) + [at])
    ensures var grown := Then(run, Fail(who, ip, at));
            LockOf(cfg, TableOf(cfg, grown), d) == CountLock(cfg, CacheOf(cfg, grown), d)
  {
    var grown := Then(run, Fail(who, ip, at));
    var h := Failures(run, d) + [at];
    assert Failures(grown, d) == h;
    FailureCounts(cfg, run, who, ip, at, d);
    KeysRefineHistory(cfg, grown, d);
    FailuresSorted(grown, d);
    AlignedCountsAgree(cfg, h);
    assert Find(CacheOf(cfg, grown).attempts, d).value.count == WindowOf(cfg, h).count;
  }

  lemma SameImposed(cfg: Policy, table: Table, cache: Cache, dims: seq<Dim>)
    requires forall d :: d in dims ==> LockOf(cfg, table, d) == CountLock(cfg, cache, d)
    ensures Imposed(cfg, table, dims) == CacheImposed(cfg, cache, dims)
  {
    LongestCongruent(dims, LockMeter(cfg, table), CountMeter(cfg, cache));
    LongestCongruent(dims, AccountMeter(cfg, table), AccountCountMeter(cfg, cache));
  }

  /** On aligned histories `register_failure` returns the same state from both backends. */
  lemma BackendsAgreeOnFailure(cfg: Policy, run: Run, who: string, ip: Option<string>, at: Time)
    requires Timed(Then(run, Fail(who, ip, at)))
    requires forall d :: d in Dimensions(who, ip) ==> Aligned(cfg, Failures(run, d) + [at])
    ensures CacheImposed(cfg, CacheRegistered(cfg, CacheOf(cfg, run), Dimensions(who, ip), AtOnce(at)), Dimensions(who, ip))
         == Answer(cfg, TableOf(cfg, run), Fail(who, ip, at)).value
  {
    var grown, dims := Then(run, Fail(who, ip, at)), Dimensions(who, ip);
    forall d | d in dims
      ensures LockOf(cfg, TableOf(cfg, grown), d) == CountLock(cfg, CacheOf(cfg, grown), d)
    {
      CountsAgreeAfterFailure(cfg, run, who, ip, at, d);
    }
    SameImposed(cfg, TableOf(cfg, grown), CacheOf(cfg, grown), dims);
  }

  /** A lock left over from an earlier window has ended before the window that replaced it began. */
  lemma {:induction false} OldLocksAreOver(cfg: Policy, h: seq<Time>)
    requires Sorted(h) && Aligned(cfg, h) && WindowOf(cfg, h).count < cfg.maxAttempts
    ensures LastLock(cfg, h).Some? ==> LastLock(cfg, h).value <= Last(h)
  {
    if |h| > 0 {
      var front := Front(h);
      LockSecondsBounds(cfg, WindowOf(cfg, h).count);
      WindowNotEmpty(cfg, front);
      if |front| > 0 {
        LockSecondsBounds(cfg, WindowOf(cfg, front).count);
        if WindowOf(cfg, front).count < cfg.maxAttempts {
          OldLocksAreOver(cfg, front);
        }
      }
    }
  }

  lemma LockedAlike(cfg: Policy, run: Run, d: Dim, now: Time)
    requires Timed(run) && Clock(run) <= now && Aligned(cfg, Failures(run, d))
    ensures LockedIn(CacheOf(cfg, run), d, now) <==> WaitOf(TableOf(cfg, run), d, now) > 0
  {
    var h := Failures(run, d);
    CounterRefinesHistory(cfg, run, d);
    KeysRefineHistory(cfg, run, d);
    FailuresSorted(run, d);
    AlignedCountsAgree(cfg, h);
    LockSecondsBounds(cfg, Streak(cfg, h));
    if |h| > 0 && Streak(cfg, h) < cfg.maxAttempts {
      OldLocksAreOver(cfg, h);
    }
  }

  /** Whatever remaining time the cache reports, both checks give the same locked bit. */
  lemma BackendsAgreeOnCheck(cfg: Policy, run: Run, who: string, ip: Option<string>, ttl: Dim -> nat, now: Time)
    requires Timed(run) && Clock(run) <= now
    requires forall d :: d in Dimensions(who, ip) ==> Aligned(cfg, Failures(run, d))
    ensures CheckCache(cfg, CacheOf(cfg, run), ttl, Dimensions(who, ip), now).locked
         == CheckDatabase(TableOf(cfg, run), Dimensions(who, ip), now).locked
  {
    var dims := Dimensions(who, ip);
    var f, g := WaitMeter(TableOf(cfg, run), now), CacheWaitMeter(cfg, CacheOf(cfg, run), ttl, now);
    forall d | d in dims
      ensures f(d) > 0 <==> g(d) > 0
    {
      LockedAlike(cfg, run, d, now);
    }
    LongestBounds(dims, f);
    LongestBounds(dims, g);
  }

  /** When a failure is answered with a lock: the rows look at the sliding streaks of its three dimensions,
      the keys at the fixed windows. */
  lemma LockedIff(cfg: Policy, run: Run, who: string, ip: Option<string>, at: Time)
    requires Timed(Then(run, Fail(who, ip, at)))
    ensures Answer(cfg, TableOf(cfg, run), Fail(who, ip, at)).value.locked
       <==> exists d :: d in Dimensions(who, ip) && Streak(cfg, Failures(run, d) + [at]) >= cfg.maxAttempts
    ensures CacheImposed(cfg, CacheRegistered(cfg, CacheOf(cfg, run), Dimensions(who, ip), AtOnce(at)), Dimensions(who, ip)).locked
       <==> exists d :: d in Dimensions(who, ip) && WindowOf(cfg, Failures(run, d) + [at]).count >= cfg.maxAttempts
  {
    var grown, dims := Then(run, Fail(who, ip, at)), Dimensions(who, ip);
    var f, g := LockMeter(cfg, TableOf(cfg, grown)), CountMeter(cfg, CacheOf(cfg, grown));
    forall d | d in dims
      ensures f(d) > 0 <==> Streak(cfg, Failures(run, d) + [at]) >= cfg.maxAttempts
      ensures g(d) > 0 <==> WindowOf(cfg, Failures(run, d) + [at]).count >= cfg.maxAttempts
    {
      FailureCounts(cfg, run, who, ip, at, d);
      KeysRefineHistory(cfg, grown, d);
      WindowNotEmpty(cfg, Failures(run, d) + [at]);
      LockSecondsBounds(cfg, Streak(cfg, Failures(run, d) + [at]));
      LockSecondsBounds(cfg, WindowOf(cfg, Failures(run, d) + [at]).count);
    }
    LongestBounds(dims, f);
    LongestBounds(dims, g);
  }

  lemma DriftingCounts(cfg: Policy)
    requires cfg.backoffSeconds == 10
    ensures var h := [Seconds(0), Seconds(9), Seconds(18)];
            !Aligned(cfg, h) && Streak(cfg, h) == 3 && WindowOf(cfg, h).count == 1
  {
    var one, two := [Seconds(0)], [Seconds(0), Seconds(9)];
    var three := [Seconds(0), Seconds(9), Seconds(18)];
    assert Front(three) == two && Front(two) == one && Front(one) == [];
    assert WindowOf(cfg, one) == Window(1, 0);
    assert WindowOf(cfg, two) == Window(2, 0);
    assert Streak(cfg, one) == 1;
    assert Streak(cfg, two) == 2;
  }

  function DriftingRun(who: string, ip: Option<string>): Run {
    Then(Then(Start(0), Fail(who, ip, Seconds(0))), Fail(who, ip, Seconds(9)))
  }

  lemma DriftingHistory(who: string, ip: Option<string>, d: Dim)
    requires d in Dimensions(who, ip)
    ensures Timed(Then(DriftingRun(who, ip), Fail(who, ip, Seconds(18))))
    ensures Failures(DriftingRun(who, ip), d) + [Seconds(18)] == [Seconds(0), Seconds(9), Seconds(18)]
  {
    var once := Then(Start(0), Fail(who, ip, Seconds(0)));
    assert Timed(once) && Failures(once, d) == [Seconds(0)];
    assert Timed(DriftingRun(who, ip));
  }

  /** Three failures nine seconds apart, with a backoff of ten: the rows count three and lock, the keys
      count one and do not. */
  lemma BackendsDifferBeyondTheWindow(who: string, ip: Option<string>)
    ensures var cfg: Policy, run, dims := Config(3, 1, 10), DriftingRun(who, ip), Dimensions(who, ip);
            && Answer(cfg, TableOf(cfg, run), Fail(who, ip, Seconds(18))).value.locked
            && !CacheImposed(cfg, CacheRegistered(cfg, CacheOf(cfg, run), dims, AtOnce(Seconds(18))), dims).locked
  {
    var cfg: Policy, run := Config(3, 1, 10), DriftingRun(who, ip);
    DriftingCounts(cfg);
    forall d | d in Dimensions(who, ip)
      ensures Failures(run, d) + [Seconds(18)] == [Seconds(0), Seconds(9), Seconds(18)]
    {
      DriftingHistory(who, ip, d);
    }
    assert Dimensions(who, ip)[0] in Dimensions(who, ip);
    DriftingHistory(who, ip, ById(who));
    LockedIff(cfg, run, who, ip, Seconds(18));
  }
}
