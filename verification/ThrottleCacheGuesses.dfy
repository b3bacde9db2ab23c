/**
 The guess rate with the cache backend. Failures late in one window are followed at once by those of the
 next, so the bound of the database rows does not hold; this one does, and it is met.
 */
module ThrottleCacheGuesses {
  import opened Common
  import opened Throttle
  import opened ThrottleHistory
  import opened ThrottleCache

  // ---------------------------------------------------------------------------------------
  // Sequential logins with the cache
  // ---------------------------------------------------------------------------------------

  /** No time to live is reported; what is reported does not bear on the locked bit. */
  function Unreported(): Dim -> nat {
    d => 0
  }

  /** The latest step of the identifier was a check of the cache, from this address, that reported no lock. */
  predicate AdmittedByCache(cfg: Policy, run: Run, who: string, ip: Option<string>) {
    match run
    case Start(_) => false
    case Then(before, Cleanup(_)) => AdmittedByCache(cfg, before, who, ip)
    case Then(before, step) =>
      if step.who != who then AdmittedByCache(cfg, before, who, ip)
      else
        && step.Check? && step.ip == ip
        && !CheckCache(cfg, CacheOf(cfg, before), Unreported(), Dimensions(who, ip), step.at).locked
  }

  /** Logins are sequential for each identifier, as with the database. */
  predicate GuardedByCache(cfg: Policy, run: Run) {
    match run
    case Start(_) => true
    case Then(before, Fail(who, ip, _)) => GuardedByCache(cfg, before) && AdmittedByCache(cfg, before, who, ip)
    case Then(before, _) => GuardedByCache(cfg, before)
  }

  lemma OthersKeepLock(cfg: Policy, run: Run, d: Dim)
    requires run.Then? && (!run.step.Cleanup? ==> d !in Dimensions(run.step.who, run.step.ip))
    ensures Find(CacheOf(cfg, run).locks, d) == Find(CacheOf(cfg, run.before).locks, d)
  {
    if run.step.Fail? {
      KeysElsewhere(cfg, CacheOf(cfg, run.before), Dimensions(run.step.who, run.step.ip), d, run.step.at);
    }
  }

  /** With the cache as well, strangers do not matter. */
  lemma StrangersDoNotMatterToCache(cfg: Policy, run: Run, step: Step, ttl: Dim -> nat, who: string, ip: Option<string>, now: Time)
    requires (step.Fail? || step.Reset?) && step.who != who && !SameAddress(ip, step.ip)
    ensures CheckCache(cfg, CacheOf(cfg, Then(run, step)), ttl, Dimensions(who, ip), now)
         == CheckCache(cfg, CacheOf(cfg, run), ttl, Dimensions(who, ip), now)
  {
    var cache, after, dims := CacheOf(cfg, run), CacheOf(cfg, Then(run, step)), Dimensions(who, ip);
    CountersSharedIff(who, ip, step.who, step.ip);
    forall d | d in dims
      ensures CacheWaitMeter(cfg, after, ttl, now)(d) == CacheWaitMeter(cfg, cache, ttl, now)(d)
    {
      OthersKeepLock(cfg, Then(run, step), d);
      assert Find(after.locks, d) == Find(cache.locks, d);
    }
    LongestCongruent(dims, CacheWaitMeter(cfg, after, ttl, now), CacheWaitMeter(cfg, cache, ttl, now));
  }

  lemma {:induction false} AdmittedKeysAreUnlocked(cfg: Policy, run: Run, who: string, ip: Option<string>, d: Dim)
    requires Timed(run) && AdmittedByCache(cfg, run, who, ip) && d in Dimensions(who, ip)
    requires d.ByIp? ==> NoResultSinceCheck(run, who)
    ensures !LockedIn(CacheOf(cfg, run), d, Clock(run))
  {
    var before, step := run.before, run.step;
    if !step.Cleanup? && step.who == who {
      CacheCheckTellsLongestWait(cfg, CacheOf(cfg, before), Unreported(), Dimensions(who, ip), step.at);
    } else {
      AdmittedKeysAreUnlocked(cfg, before, who, ip, d);
      if !step.Check? {
        OthersKeepLock(cfg, run, d);
      }
    }
  }

  // ---------------------------------------------------------------------------------------
  // What the locks make of a history
  // ---------------------------------------------------------------------------------------

  /** A failure that fills its window, or finds it full, is followed by no other for the policy's spacing. */
  predicate FullWindowsPause(cfg: Policy, h: seq<Time>) {
    |h| > 1 ==>
      && FullWindowsPause(cfg, Front(h))
      && (WindowOf(cfg, Front(h)).count >= cfg.maxAttempts ==> Last(h) - Last(Front(h)) >= Spacing(cfg))
  }

  lemma {:induction false} LocksMakePauses(cfg: Policy, run: Run, who: string)
    requires Timed(run) && GuardedByCache(cfg, run)
    ensures FullWindowsPause(cfg, Failures(run, ById(who)))
  {
    match run
    case Start(_) =>
    case Then(before, Fail(asker, ip, at)) =>
      LocksMakePauses(cfg, before, who);
      if asker == who {
        var h := Failures(before, ById(who));
        assert Dimensions(who, ip)[0] == ById(who) && Front(h + [at]) == h;
        AdmittedKeysAreUnlocked(cfg, before, who, ip, ById(who));
        KeysRefineHistory(cfg, before, ById(who));
        LockSecondsBounds(cfg, WindowOf(cfg, h).count);
        WindowNotEmpty(cfg, h);
      }
    case Then(before, _) => LocksMakePauses(cfg, before, who);
  }

  /** The most failures that fit into less than a spacing. */
  function CacheBlock(cfg: Policy): nat {
    Max(cfg.maxAttempts, 2 * cfg.maxAttempts - 2)
  }

  lemma FirstStartsWindow(cfg: Policy, h: seq<Time>)
    ensures |h| > 0 && WindowOf(cfg, h).count == 1 ==> WindowOf(cfg, h).start == Last(h)
  {
    if |h| > 0 {
      WindowNotEmpty(cfg, Front(h));
    }
  }

  /** Where the last failure stands when fewer than a spacing has gone by since failure `i`: in the same
      window, or in the next one, with what was left of the first behind it. */
  predicate CloseBy(cfg: Policy, h: seq<Time>, i: nat)
    requires i < |h|
  {
    var first, last, between := WindowOf(cfg, h[..i + 1]), WindowOf(cfg, h), |h| - 1 - i;
    && (between > 0 ==> last.count <= cfg.maxAttempts)
    && (|| (last.start == first.start && last.count == first.count + between)
        || (first.count > 1 && last.start >= h[i] && between < cfg.maxAttempts - first.count + last.count))
  }

  lemma {:induction false} CloseFailures(cfg: Policy, h: seq<Time>, i: nat)
    requires Sorted(h) && FullWindowsPause(cfg, h) && i < |h| && Last(h) - h[i] < Spacing(cfg)
    ensures CloseBy(cfg, h, i)
  {
    if i == |h| - 1 {
      assert h[..i + 1] == h;
    } else {
      var front := Front(h);
      assert h[..i + 1] == front[..i + 1] && Last(front) <= Last(h);
      CloseFailures(cfg, front, i);
      WindowNotEmpty(cfg, front);
      WindowNotEmpty(cfg, h[..i + 1]);
      FirstStartsWindow(cfg, h[..i + 1]);
    }
  }

  lemma {:induction false} PausesOfPrefix(cfg: Policy, h: seq<Time>, n: nat)
    requires FullWindowsPause(cfg, h) && n <= |h|
    ensures FullWindowsPause(cfg, h[..n])
  {
    if n < |h| {
      assert h[..n] == Front(h)[..n];
      PausesOfPrefix(cfg, Front(h), n);
    } else {
      assert h[..n] == h;
    }
  }

  lemma PausesSpace(cfg: Policy, h: seq<Time>)
    requires Sorted(h) && FullWindowsPause(cfg, h)
    ensures Spaced(h, CacheBlock(cfg), Spacing(cfg))
  {
    forall i | 0 <= i < |h| - CacheBlock(cfg)
      ensures h[i + CacheBlock(cfg)] - h[i] >= Spacing(cfg)
    {
      var upTo := h[..i + CacheBlock(cfg) + 1];
      PausesOfPrefix(cfg, h, i + CacheBlock(cfg) + 1);
      if Last(upTo) - upTo[i] < Spacing(cfg) {
        CloseFailures(cfg, upTo, i);
        WindowNotEmpty(cfg, upTo[..i + 1]);
      }
    }
  }

  /** With the cache, any CacheBlock + 1 consecutive failures of an identifier since its last successful login
      span at least the policy's spacing. */
  lemma CacheFailuresAreSpaced(cfg: Policy, run: Run, who: string)
    requires Timed(run) && GuardedByCache(cfg, run)
    ensures Spaced(Failures(run, ById(who)), CacheBlock(cfg), Spacing(cfg))
  {
    FailuresSorted(run, ById(who));
    LocksMakePauses(cfg, run, who);
    PausesSpace(cfg, Failures(run, ById(who)));
  }

  /** A window of length `window` since then holds at most CacheBlock * (window / spacing + 1) of them. */
  lemma CacheGuessRateIsBounded(cfg: Policy, run: Run, who: string, lo: nat, hi: nat, window: nat)
    requires Timed(run) && GuardedByCache(cfg, run)
    requires lo <= hi < |Failures(run, ById(who))|
    requires Failures(run, ById(who))[hi] - Failures(run, ById(who))[lo] <= window
    ensures hi - lo + 1 <= CacheBlock(cfg) * (window / Spacing(cfg) + 1)
  {
    FailuresSorted(run, ById(who));
    CacheFailuresAreSpaced(cfg, run, who);
    SpacedCount(Failures(run, ById(who)), CacheBlock(cfg), Spacing(cfg), lo, hi, window);
  }

  lemma {:induction false} CacheIsSpacedThroughout(cfg: Policy, run: Run, who: string)
    requires Timed(run) && GuardedByCache(cfg, run)
    ensures SpacedThroughout(run, who, CacheBlock(cfg), Spacing(cfg))
  {
    CacheFailuresAreSpaced(cfg, run, who);
    if run.Then? {
      CacheIsSpacedThroughout(cfg, run.before, who);
    }
  }

  /** All failures of an identifier in the last `window`: at most CacheBlock * (window / spacing + 1) for each
      of its successful logins in that time, and as many again. */
  lemma CacheWindowedGuessesAreBounded(cfg: Policy, run: Run, who: string, from: Time, window: nat)
    requires Timed(run) && GuardedByCache(cfg, run) && Clock(run) <= from + window
    ensures FailedFrom(run, who, from)
         <= (ResetsFrom(run, who, from) + 1) * (CacheBlock(cfg) * (window / Spacing(cfg) + 1))
  {
    CacheIsSpacedThroughout(cfg, run, who);
    GuessesAreBounded(run, who, CacheBlock(cfg), Spacing(cfg), from, window);
  }

  // ---------------------------------------------------------------------------------------
  // The bound is met
  // ---------------------------------------------------------------------------------------

  /** One caller tries at each of these instants, and fails. */
  function Logins(who: string, ip: Option<string>, h: seq<Time>): Run {
    if |h| == 0 then Start(0)
    else Then(Then(Logins(who, ip, Front(h)), Check(who, ip, Last(h))), Fail(who, ip, Last(h)))
  }

  lemma {:induction false} LoginsFail(who: string, ip: Option<string>, h: seq<Time>, d: Dim)
    requires d in Dimensions(who, ip)
    ensures Failures(Logins(who, ip, h), d) == h
  {
    if |h| > 0 {
      LoginsFail(who, ip, Front(h), d);
      assert h == Front(h) + [Last(h)];
    }
  }

  lemma {:induction false} LoginsAreTimed(who: string, ip: Option<string>, h: seq<Time>)
    requires Sorted(h) && (|h| > 0 ==> h[0] >= 0)
    ensures Timed(Logins(who, ip, h)) && Clock(Logins(who, ip, h)) == if |h| > 0 then Last(h) else 0
  {
    if |h| > 0 {
      LoginsAreTimed(who, ip, Front(h));
    }
  }

  /** No window is filled before the last failure. */
  predicate NeverFull(cfg: Policy, h: seq<Time>) {
    |h| > 0 ==> NeverFull(cfg, Front(h)) && WindowOf(cfg, Front(h)).count < cfg.maxAttempts
  }

  lemma {:induction false} NeverFullNeverLocks(cfg: Policy, h: seq<Time>)
    requires NeverFull(cfg, h) && WindowOf(cfg, h).count < cfg.maxAttempts
    ensures LastLock(cfg, h).None?
  {
    if |h| > 0 {
      NeverFullNeverLocks(cfg, Front(h));
    }
  }

  lemma {:induction false} LoginsAreAdmitted(cfg: Policy, who: string, ip: Option<string>, h: seq<Time>)
    requires NeverFull(cfg, h)
    ensures GuardedByCache(cfg, Logins(who, ip, h))
  {
    if |h| > 0 {
      var before := Logins(who, ip, Front(h));
      LoginsAreAdmitted(cfg, who, ip, Front(h));
      NeverFullNeverLocks(cfg, Front(h));
      forall d | d in Dimensions(who, ip)
        ensures !LockedIn(CacheOf(cfg, before), d, Last(h))
      {
        LoginsFail(who, ip, Front(h), d);
        KeysRefineHistory(cfg, before, d);
      }
      CacheCheckTellsLongestWait(cfg, CacheOf(cfg, before), Unreported(), Dimensions(who, ip), Last(h));
    }
  }

  /** Logins at such instants make an admitted run with that history. */
  predicate Free(cfg: Policy, h: seq<Time>) {
    Sorted(h) && (|h| > 0 ==> h[0] >= 0) && NeverFull(cfg, h)
  }

  lemma LoginsAreFree(cfg: Policy, who: string, ip: Option<string>, h: seq<Time>)
    requires Free(cfg, h)
    ensures Timed(Logins(who, ip, h)) && GuardedByCache(cfg, Logins(who, ip, h))
    ensures Failures(Logins(who, ip, h), ById(who)) == h
  {
    LoginsAreTimed(who, ip, h);
    LoginsAreAdmitted(cfg, who, ip, h);
    assert Dimensions(who, ip)[0] == ById(who);
    LoginsFail(who, ip, h, ById(who));
  }

  /** One failure opens a window, the next ones nearly fill it at its very end, and the rest fill the window
      that follows. */
  function BurstAt(cfg: Policy, i: nat): Time {
    if i == 0 then 0 else if i < cfg.maxAttempts - 1 then Backoff(cfg) - 1 else Backoff(cfg)
  }

  predicate IsBurst(cfg: Policy, h: seq<Time>) {
    forall i :: 0 <= i < |h| ==> h[i] == BurstAt(cfg, i)
  }

  lemma {:induction false} BurstWindow(cfg: Policy, h: seq<Time>)
    requires IsBurst(cfg, h) && (cfg.maxAttempts > 1 || |h| < 2)
    ensures var n := |h|;
            WindowOf(cfg, h)
            == if n < cfg.maxAttempts || n < 2 then Window(n, 0) else Window(n - (cfg.maxAttempts - 1), Backoff(cfg))
  {
    if |h| > 0 {
      BurstWindow(cfg, Front(h));
      assert Last(h) == BurstAt(cfg, |h| - 1);
    }
  }

  lemma {:induction false} BurstFillsLate(cfg: Policy, h: seq<Time>)
    requires IsBurst(cfg, h) && |h| < 2 * cfg.maxAttempts
    ensures NeverFull(cfg, h)
  {
    if |h| > 0 {
      BurstWindow(cfg, Front(h));
      BurstFillsLate(cfg, Front(h));
    }
  }

  ghost predicate AlwaysSpaced(cfg: Policy, n: nat) {
    forall run: Run, who: string :: Timed(run) && GuardedByCache(cfg, run) ==> Spaced(Failures(run, ById(who)), n, Spacing(cfg))
  }

  lemma SpacedFurther(h: seq<Time>, few: nat, many: nat, gap: Time)
    requires Sorted(h) && Spaced(h, few, gap) && few <= many
    ensures Spaced(h, many, gap)
  {
    forall i | 0 <= i < |h| - many
      ensures h[i + many] - h[i] >= gap
    {
      assert h[i + few] <= h[i + many];
    }
  }

  lemma CacheRunsAreSpaced(cfg: Policy, n: nat)
    requires n >= CacheBlock(cfg)
    ensures AlwaysSpaced(cfg, n)
  {
    forall run: Run, who: string | Timed(run) && GuardedByCache(cfg, run)
      ensures Spaced(Failures(run, ById(who)), n, Spacing(cfg))
    {
      FailuresSorted(run, ById(who));
      CacheFailuresAreSpaced(cfg, run, who);
      SpacedFurther(Failures(run, ById(who)), CacheBlock(cfg), n, Spacing(cfg));
    }
  }

  /** The last failures of a burst come within a microsecond. */
  lemma TightBurst(cfg: Policy, n: nat) returns (h: seq<Time>, i: nat)
    requires n < CacheBlock(cfg)
    ensures Free(cfg, h) && i + n < |h| && h[i + n] - h[i] < Spacing(cfg)
  {
    h := seq(2 * cfg.maxAttempts - 1, k requires k >= 0 => BurstAt(cfg, k));
    i := |h| - 1 - n;
    BurstFillsLate(cfg, h);
  }

  /** CacheBlock is the least number for which this is so. In particular the bound of the database,
      LOGIN_MAX_ATTEMPTS, holds with the cache exactly while LOGIN_MAX_ATTEMPTS is at most two. */
  lemma CacheBlockIsLeast(cfg: Policy, n: nat)
    ensures AlwaysSpaced(cfg, n) <==> n >= CacheBlock(cfg)
    ensures CacheBlock(cfg) == cfg.maxAttempts <==> cfg.maxAttempts <= 2
  {
    if n >= CacheBlock(cfg) {
      CacheRunsAreSpaced(cfg, n);
    } else {
      var who := "";
      var h, i := TightBurst(cfg, n);
      LoginsAreFree(cfg, who, None, h);
      assert h[i + n] - h[i] < Spacing(cfg);
      assert !Spaced(Failures(Logins(who, None, h), ById(who)), n, Spacing(cfg));
    }
  }
}
