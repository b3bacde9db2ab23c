/** The login protection service and the part of a login that it guards, over its stored state. */
module ThrottleService {
  import opened Common
  import opened Throttle
  import opened ThrottleHistory
  import opened ThrottleCache

  /** What a login attempt turns out to be once the check has let it through: a wrong password; a right
      password with a status, ban or missing-code refusal; a wrong second factor; a success. */
  datatype Verdict = BadCredentials | Refused | BadCode | Passed

  datatype LoginResult =
    | TooManyAttempts(retryAfter: nat)
    | AccountHeld(retryAfter: nat)
    | Denied(locked: bool)
    | Unavailable
    | LoggedIn

  type AccountLocks = map<string, Time>

  predicate HeldAt(locks: AccountLocks, account: string, now: Time) {
    account in locks && locks[account] > now
  }

  /** What the caller of a failure after this run is told. */
  function Told(cfg: Policy, run: Run, who: string, ip: Option<string>, at: Time): LockoutState {
    Answer(cfg, TableOf(cfg, run), Fail(who, ip, at)).value
  }

  function AfterAdmission(run: Run, who: string, ip: Option<string>, done: Time, verdict: Verdict, held: bool): Run {
    if verdict.BadCredentials? then Then(run, Fail(who, ip, done))
    else if held || verdict.Refused? then run
    else if verdict.BadCode? then Then(run, Fail(who, ip, done))
    else Then(run, Reset(who, ip, done))
  }

  function AfterLogin(cfg: Policy, run: Run, who: string, ip: Option<string>, asked: Time, done: Time,
                      verdict: Verdict, held: bool): Run {
    var checked := Then(run, Check(who, ip, asked));
    if CheckDatabase(TableOf(cfg, run), Dimensions(who, ip), asked).locked then checked
    else AfterAdmission(checked, who, ip, done, verdict, held)
  }

  // ---------------------------------------------------------------------------------------
  // One more dimension of a loop
  // ---------------------------------------------------------------------------------------

  /** The wait told to an account holder is over at most a second too early or too late. */
  lemma TruncatedWait(until: Time, now: Time)
    requires until > now
    ensures var wait := Max(1, WholeSeconds(until - now));
            0 < wait && until < now + Seconds(wait + 1) && (wait > 1 ==> now + Seconds(wait) <= until)
  {
  }

  lemma LongestGrows(dims: seq<Dim>, i: nat, f: Dim -> nat)
    requires i < |dims|
    ensures Longest(dims[..i + 1], f) == Max(Longest(dims[..i], f), f(dims[i]))
  {
    assert dims[..i + 1][..i] == dims[..i];
  }

  lemma RowsGrow(cfg: Policy, table: Table, dims: seq<Dim>, i: nat, now: Time)
    requires i < |dims| && NoDuplicates(dims)
    ensures var before, d := Registered(cfg, table, dims[..i], now), dims[i];
            && Bump(cfg, Find(before, d), now) == Bump(cfg, Find(table, d), now)
            && Registered(cfg, table, dims[..i + 1], now) == before[d := Bump(cfg, Find(table, d), now)]
    ensures var final, d := Registered(cfg, table, dims, now), dims[i];
            var lock := LockSeconds(cfg, Bump(cfg, Find(table, d), now).attempts);
            && Longest(dims[..i + 1], LockMeter(cfg, final)) == Max(Longest(dims[..i], LockMeter(cfg, final)), lock)
            && Longest(dims[..i + 1], AccountMeter(cfg, final))
               == (var longest := Longest(dims[..i], AccountMeter(cfg, final)); if d.ById? then Max(longest, lock) else longest)
  {
    var final := Registered(cfg, table, dims, now);
    PrefixGrows(dims, i);
    WrittenGrows(table, dims, i, Bumps(cfg, table, now));
    WrittenFind(table, dims[..i], Bumps(cfg, table, now), dims[i]);
    WrittenFind(table, dims, Bumps(cfg, table, now), dims[i]);
    assert Find(final, dims[i]) == Some(Bump(cfg, Find(table, dims[i]), now));
    LongestGrows(dims, i, LockMeter(cfg, final));
    LongestGrows(dims, i, AccountMeter(cfg, final));
  }

  lemma KeysGrow(cfg: Policy, cache: Cache, dims: seq<Dim>, i: nat, clocks: Dim -> Clocks)
    requires i < |dims| && NoDuplicates(dims)
    ensures var before, d := CacheRegistered(cfg, cache, dims[..i], clocks), dims[i];
            && Counted(cfg, before, d, clocks(d)) == Counted(cfg, cache, d, clocks(d))
            && CacheRegistered(cfg, cache, dims[..i + 1], clocks) == KeyCounted(cfg, before, d, clocks(d))
    ensures CountLock(cfg, CacheRegistered(cfg, cache, dims, clocks), dims[i]) == CacheLock(cfg, cache, dims[i], clocks(dims[i]))
  {
    var before, d := CacheRegistered(cfg, cache, dims[..i], clocks), dims[i];
    PrefixGrows(dims, i);
    WrittenGrows(cache.attempts, dims, i, Counts(cfg, cache, clocks));
    WrittenGrows(cache.locks, dims, i, Locks(cfg, cache, clocks));
    WrittenFind(cache.attempts, dims[..i], Counts(cfg, cache, clocks), d);
    WrittenFind(cache.attempts, dims, Counts(cfg, cache, clocks), d);
    assert Find(before.attempts, d) == Find(cache.attempts, d);
    assert Find(CacheRegistered(cfg, cache, dims, clocks).attempts, d).Some?;
  }

  lemma CacheLongestGrows(cfg: Policy, final: Cache, dims: seq<Dim>, i: nat, lock: nat)
    requires i < |dims| && CountLock(cfg, final, dims[i]) == lock
    ensures Longest(dims[..i + 1], CountMeter(cfg, final)) == Max(Longest(dims[..i], CountMeter(cfg, final)), lock)
    ensures Longest(dims[..i + 1], AccountCountMeter(cfg, final))
            == (var longest := Longest(dims[..i], AccountCountMeter(cfg, final)); if dims[i].ById? then Max(longest, lock) else longest)
  {
    LongestGrows(dims, i, CountMeter(cfg, final));
    LongestGrows(dims, i, AccountCountMeter(cfg, final));
  }

  // ---------------------------------------------------------------------------------------
  // The service
  // ---------------------------------------------------------------------------------------

  class LoginProtection {
    const cfg: Policy
    var rows: Table
    var cache: Cache
    /** The persistent lock of each known account, in the account's security settings. */
    var accountLocks: AccountLocks
    ghost var log: Run

    /** The rows are those of a timed run of sequential logins and clean-ups. */
    ghost predicate Valid()
      reads this
    {
      rows == TableOf(cfg, log) && Timed(log) && Guarded(cfg, log)
    }

    constructor (cfg: Policy, now: Time)
      ensures Valid() && this.cfg == cfg && log == Start(now)
      ensures rows == map[] && accountLocks == map[] && cache == Cache(map[], map[])
    {
      this.cfg := cfg;
      rows, cache, accountLocks, log := map[], Cache(map[], map[]), map[], Start(now);
    }

    /** One dimension's row, fetched or created, brought up to date and saved. */
    method BumpRow(d: Dim, now: Time) returns (lock: nat)
      modifies `rows
      ensures rows == old(rows)[d := Bump(cfg, Find(old(rows), d), now)]
      ensures lock == LockSeconds(cfg, rows[d].attempts)
    {
      var row := if d in rows then rows[d] else Row(0, None, now + Backoff(cfg));
      if row.expiresAt <= now {
        row := row.(attempts := 0, lockedUntil := None);
      }
      row := row.(attempts := row.attempts + 1);
      lock := LockSeconds(cfg, row.attempts);
      row := row.(lockedUntil := if lock > 0 then Some(now + Seconds(lock)) else None);
      row := row.(expiresAt := now + Backoff(cfg));
      rows := rows[d := row];
    }

    method RegisterDatabaseFailure(dims: seq<Dim>, now: Time) returns (state: LockoutState)
      requires NoDuplicates(dims)
      modifies `rows
      ensures rows == Registered(cfg, old(rows), dims, now)
      ensures state == Imposed(cfg, rows, dims)
    {
      ghost var first, final := rows, Registered(cfg, rows, dims, now);
      assert dims[..0] == [] && dims[..|dims|] == dims;
      ghost var locks, accountLocks := LockMeter(cfg, final), AccountMeter(cfg, final);
      var longest, accountLongest := 0, 0;
      for i := 0 to |dims|
        invariant rows == Registered(cfg, first, dims[..i], now)
        invariant longest == Longest(dims[..i], locks)
        invariant accountLongest == Longest(dims[..i], accountLocks)
      {
        var d := dims[i];
        RowsGrow(cfg, first, dims, i, now);
        var lock := BumpRow(d, now);
        longest := Max(longest, lock);
        accountLongest := if d.ById? then Max(accountLongest, lock) else accountLongest;
      }
      state := LockoutState(longest > 0, longest, accountLongest > 0);
    }

    /** One dimension's counter and, if it is due, its lock key. */
    method CountKey(d: Dim, clocks: Clocks) returns (lock: nat)
      modifies `cache
      ensures lock == CacheLock(cfg, old(cache), d, clocks)
      ensures cache == KeyCounted(cfg, old(cache), d, clocks)
    {
      var attempts := 1;
      if !Counting(cache, d, clocks.added) {
        cache := cache.(attempts := cache.attempts[d := Entry(1, clocks.added + Backoff(cfg))]);
      } else if Counting(cache, d, clocks.counted) {
        attempts := cache.attempts[d].count + 1;
        cache := cache.(attempts := cache.attempts[d := cache.attempts[d].(count := attempts)]);
      } else {
        cache := cache.(attempts := cache.attempts[d := Entry(1, clocks.restarted + Backoff(cfg))]);
      }
      lock := LockSeconds(cfg, attempts);
      if lock > 0 {
        cache := cache.(locks := cache.locks[d := clocks.locked + Seconds(lock)]);
      }
    }

    method RegisterCacheFailure(dims: seq<Dim>, clocks: Dim -> Clocks) returns (state: LockoutState)
      requires NoDuplicates(dims)
      modifies `cache
      ensures cache == CacheRegistered(cfg, old(cache), dims, clocks)
      ensures state == CacheImposed(cfg, cache, dims)
    {
      ghost var first, final := cache, CacheRegistered(cfg, cache, dims, clocks);
      assert dims[..0] == [] && dims[..|dims|] == dims;
      ghost var locks, accountLocks := CountMeter(cfg, final), AccountCountMeter(cfg, final);
      var longest, accountLongest := 0, 0;
      for i := 0 to |dims|
        invariant cache == CacheRegistered(cfg, first, dims[..i], clocks)
        invariant longest == Longest(dims[..i], locks)
        invariant accountLongest == Longest(dims[..i], accountLocks)
      {
        var d := dims[i];
        KeysGrow(cfg, first, dims, i, clocks);
        var lock := CountKey(d, clocks(d));
        CacheLongestGrows(cfg, final, dims, i, lock);
        longest := Max(longest, lock);
        accountLongest := if d.ById? then Max(accountLongest, lock) else accountLongest;
      }
      state := LockoutState(longest > 0, longest, accountLongest > 0);
    }

    /** The caller starts afresh in both backends: no check finds a lock, and the next failure counts as the
        first. Every other dimension keeps its row, its counter and its lock. */
    method Reset(who: string, ip: Option<string>)
      modifies `rows, `cache
      ensures forall d :: d !in Dimensions(who, ip) ==>
                && Find(rows, d) == Find(old(rows), d)
                && Find(cache.attempts, d) == Find(old(cache).attempts, d) && Find(cache.locks, d) == Find(old(cache).locks, d)
      ensures forall later :: !CheckDatabase(rows, Dimensions(who, ip), later).locked
      ensures forall ttl: Dim -> nat, later :: !CheckCache(cfg, cache, ttl, Dimensions(who, ip), later).locked
      ensures forall d, later :: d in Dimensions(who, ip) ==> Bump(cfg, Find(rows, d), later).attempts == 1
      ensures forall d, clocks :: d in Dimensions(who, ip) ==> Counted(cfg, cache, d, clocks).count == 1
      ensures rows == Removed(old(rows), Dimensions(who, ip))
    {
      var dims := Dimensions(who, ip);
      rows := Removed(rows, dims);
      cache := Cache(Removed(cache.attempts, dims), Removed(cache.locks, dims));
      forall later
        ensures !CheckDatabase(rows, dims, later).locked
      {
        LongestBounds(dims, WaitMeter(rows, later));
      }
      forall ttl: Dim -> nat, later
        ensures !CheckCache(cfg, cache, ttl, dims, later).locked
      {
        LongestBounds(dims, CacheWaitMeter(cfg, cache, ttl, later));
      }
    }

    method CleanupLoginAttempts(now: Time) returns (deleted: nat)
      requires Valid() && Clock(log) <= now
      modifies `rows, `log
      ensures Valid() && log == Then(old(log), Cleanup(now))
      ensures deleted == |old(rows)| - |rows|
      ensures forall d :: Find(rows, d)
                == if d in old(rows) && old(rows)[d].expiresAt < now then None else Find(old(rows), d)
    {
      var expired := set d | d in rows && rows[d].expiresAt < now;
      deleted := |expired|;
      rows := rows - expired;
      assert rows.Keys == old(rows).Keys - expired;
      assert rows == Swept(old(rows), now);
      log := Then(log, Cleanup(now));
    }

    /** A known account is locked from now on for exactly the time given, and no other account changes. That
        takes time off a lock exactly when the lock replaced was to last beyond it. */
    method LockKnownAccount(account: Option<string>, retryAfter: nat, now: Time)
      modifies `accountLocks
      ensures forall a, later :: HeldAt(accountLocks, a, later) <==>
                if account == Some(a) then later < now + Seconds(retryAfter) else HeldAt(old(accountLocks), a, later)
      ensures (exists a, later :: HeldAt(old(accountLocks), a, later) && !HeldAt(accountLocks, a, later))
         <==> account.Some? && HeldAt(old(accountLocks), account.value, now + Seconds(retryAfter))
      ensures accountLocks == if account.None? then old(accountLocks)
                              else old(accountLocks)[account.value := now + Seconds(retryAfter)]
    {
      if account.Some? {
        accountLocks := accountLocks[account.value := now + Seconds(retryAfter)];
        if HeldAt(old(accountLocks), account.value, now + Seconds(retryAfter)) {
          assert !HeldAt(accountLocks, account.value, now + Seconds(retryAfter));
        }
      }
    }

    /** A wrong password: the failure is counted and, if its own counter says so, the account locked. */
    method RegisterWrongPassword(who: string, ip: Option<string>, account: Option<string>, now: Time)
      returns (locked: bool)
      requires Valid() && Clock(log) <= now && Admitted(cfg, log, who, ip)
      modifies `rows, `log, `accountLocks
      ensures Valid() && log == Then(old(log), Fail(who, ip, now))
      ensures locked == Told(cfg, old(log), who, ip, now).locked
      ensures accountLocks ==
        if account.Some? && Tight(cfg, Failures(old(log), ById(who)) + [now], cfg.maxAttempts)
        then old(accountLocks)[account.value := now + Seconds(Imposed(cfg, rows, Dimensions(who, ip)).retryAfter)]
        else old(accountLocks)
    {
      AccountLockedByOwnFailuresOnly(cfg, log, who, ip, now);
      var imposed := RegisterDatabaseFailure(Dimensions(who, ip), now);
      log := Then(log, Fail(who, ip, now));
      if imposed.accountLocked {
        LockKnownAccount(account, imposed.retryAfter, now);
      }
      locked := imposed.locked;
    }

    /** The rest of a login whose check reported no lock. */
    method LoginAdmitted(who: string, ip: Option<string>, account: Option<string>, done: Time, verdict: Verdict)
      returns (result: LoginResult)
      requires Valid() && Clock(log) <= done && Admitted(cfg, log, who, ip)
      requires account.None? ==> verdict.BadCredentials?
      modifies `rows, `cache, `log, `accountLocks
      ensures Valid() && log == AfterAdmission(old(log), who, ip, done, verdict, result.AccountHeld?)
      ensures forall d :: d in Dimensions(who, ip) ==>
                Failures(log, d)
                == if verdict.BadCredentials? || (verdict.BadCode? && !result.AccountHeld?) then Failures(old(log), d) + [done]
                   else if verdict.Passed? && !result.AccountHeld? then []
                   else Failures(old(log), d)
      ensures !result.TooManyAttempts?
      ensures verdict.BadCredentials? ==> result == Denied(Told(cfg, old(log), who, ip, done).locked)
      ensures !result.AccountHeld? && verdict.BadCode? ==> result == Denied(false)
      ensures result.Unavailable? <==> !result.AccountHeld? && verdict.Refused?
      ensures result.AccountHeld? <==> !verdict.BadCredentials? && HeldAt(old(accountLocks), account.value, done)
      ensures result.AccountHeld? ==> 0 < result.retryAfter && !HeldAt(old(accountLocks), account.value, done + Seconds(result.retryAfter + 1))
      ensures result.AccountHeld? && result.retryAfter > 1 ==>
                forall later :: later < done + Seconds(result.retryAfter) ==> HeldAt(old(accountLocks), account.value, later)
      ensures result.LoggedIn? <==> !result.AccountHeld? && verdict.Passed?
      ensures accountLocks ==
        if result.AccountHeld? then old(accountLocks)
        else if !verdict.BadCredentials? then old(accountLocks) - {account.value}
        else if account.Some? && Tight(cfg, Failures(old(log), ById(who)) + [done], cfg.maxAttempts)
        then old(accountLocks)[account.value := done + Seconds(Imposed(cfg, rows, Dimensions(who, ip)).retryAfter)]
        else old(accountLocks)
    {
      if verdict.BadCredentials? {
        var locked := RegisterWrongPassword(who, ip, account, done);
        return Denied(locked);
      }
      if HeldAt(accountLocks, account.value, done) {
        TruncatedWait(accountLocks[account.value], done);
        return AccountHeld(Max(1, WholeSeconds(accountLocks[account.value] - done)));
      }
      accountLocks := accountLocks - {account.value};
      if verdict.Refused? {
        result := Unavailable;
      } else if verdict.BadCode? {
        var _ := RegisterDatabaseFailure(Dimensions(who, ip), done);
        log := Then(log, Fail(who, ip, done));
        result := Denied(false);
      } else {
        Reset(who, ip);
        log := Then(log, Step.Reset(who, ip, done));
        result := LoggedIn;
      }
    }

    /** One login with the database backend. `account` is the account that the identifier names; the
        password is verified between the check at `asked` and the registration at `done`. */
    method Login(who: string, ip: Option<string>, account: Option<string>, asked: Time, done: Time, verdict: Verdict)
      returns (result: LoginResult)
      requires Valid() && Clock(log) <= asked <= done
      requires account.None? ==> verdict.BadCredentials?
      modifies `rows, `cache, `log, `accountLocks
      ensures Valid()
      ensures log == AfterLogin(cfg, old(log), who, ip, asked, done, verdict, result.AccountHeld?)
      ensures forall d :: d in Dimensions(who, ip) ==>
                Failures(log, d)
                == if result.TooManyAttempts? || result.AccountHeld? || verdict.Refused? then Failures(old(log), d)
                   else if verdict.BadCredentials? || verdict.BadCode? then Failures(old(log), d) + [done]
                   else []
      ensures forall d :: d !in Dimensions(who, ip) ==> Failures(log, d) == Failures(old(log), d)
      ensures !result.TooManyAttempts? && verdict.BadCredentials? ==>
                result == Denied(Told(cfg, old(log), who, ip, done).locked)
      ensures !result.TooManyAttempts? && !result.AccountHeld? && verdict.BadCode? ==> result == Denied(false)
      ensures result.Unavailable? <==> !result.TooManyAttempts? && !result.AccountHeld? && verdict.Refused?
      ensures result.TooManyAttempts? <==> CheckDatabase(old(rows), Dimensions(who, ip), asked).locked
      ensures result.TooManyAttempts? ==>
                0 < result.retryAfter == CheckDatabase(old(rows), Dimensions(who, ip), asked).retryAfter
      ensures result.AccountHeld? <==>
        !result.TooManyAttempts? && !verdict.BadCredentials? && HeldAt(old(accountLocks), account.value, done)
      ensures result.AccountHeld? ==> 0 < result.retryAfter && !HeldAt(old(accountLocks), account.value, done + Seconds(result.retryAfter + 1))
      ensures result.AccountHeld? && result.retryAfter > 1 ==>
                forall later :: later < done + Seconds(result.retryAfter) ==> HeldAt(old(accountLocks), account.value, later)
      ensures result.LoggedIn? <==> !result.TooManyAttempts? && !result.AccountHeld? && verdict.Passed?
      ensures accountLocks ==
        if result.TooManyAttempts? || result.AccountHeld? then old(accountLocks)
        else if !verdict.BadCredentials? then old(accountLocks) - {account.value}
        else if account.Some? && Tight(cfg, Failures(old(log), ById(who)) + [done], cfg.maxAttempts)
        then old(accountLocks)[account.value := done + Seconds(Imposed(cfg, rows, Dimensions(who, ip)).retryAfter)]
        else old(accountLocks)
    {
      var state := CheckDatabase(rows, Dimensions(who, ip), asked);
      log := Then(log, Check(who, ip, asked));
      if state.locked {
        return TooManyAttempts(state.retryAfter);
      }
      result := LoginAdmitted(who, ip, account, done, verdict);
    }
  }

  // ---------------------------------------------------------------------------------------
  // How long a known account is locked
  // ---------------------------------------------------------------------------------------

  lemma {:induction false} DoubledGrows(seconds: nat, few: nat, many: nat)
    requires seconds > 0
    ensures few <= many <==> Doubled(seconds, few) <= Doubled(seconds, many)
  {
    if few > 0 && many > 0 {
      DoubledGrows(seconds, few - 1, many - 1);
    } else {
      DoubledIsExponential(seconds, few);
      DoubledIsExponential(seconds, many);
    }
  }

  /** Once the lock of `own` failures is the longest that the policy has, no count has a longer one; before
      that, exactly the larger counts do. */
  lemma LockSecondsOrder(cfg: Policy, own: nat, other: nat)
    requires own >= cfg.maxAttempts
    ensures LockSeconds(cfg, other) <= LockSeconds(cfg, own)
       <==> || own >= cfg.maxAttempts + 6 || Doubled(cfg.lockoutSeconds, own - cfg.maxAttempts) >= cfg.backoffSeconds
            || other <= own
  {
    if other >= cfg.maxAttempts {
      DoubledGrows(cfg.lockoutSeconds, Min(other - cfg.maxAttempts, 6), Min(own - cfg.maxAttempts, 6));
      DoubledGrows(cfg.lockoutSeconds, Min(own - cfg.maxAttempts, 6), Min(other - cfg.maxAttempts, 6));
    }
  }

  lemma LongestOfThree(dims: seq<Dim>, f: Dim -> nat)
    requires |dims| == 3
    ensures Longest(dims, f) == Max(Max(f(dims[0]), f(dims[1])), f(dims[2]))
  {
    assert dims[..3] == dims && dims[..0] == [];
    LongestGrows(dims, 0, f);
    LongestGrows(dims, 1, f);
    LongestGrows(dims, 2, f);
  }

  lemma OwnLockIsLongestIff(cfg: Policy, own: nat, a: nat, b: nat)
    requires own >= cfg.maxAttempts
    ensures Max(Max(LockSeconds(cfg, own), LockSeconds(cfg, a)), LockSeconds(cfg, b)) == LockSeconds(cfg, own)
       <==> || own >= cfg.maxAttempts + 6 || Doubled(cfg.lockoutSeconds, own - cfg.maxAttempts) >= cfg.backoffSeconds
            || (a <= own && b <= own)
  {
    LockSecondsOrder(cfg, own, a);
    LockSecondsOrder(cfg, own, b);
  }

  function StreakWith(cfg: Policy, run: Run, d: Dim, at: Time): nat {
    Streak(cfg, Failures(run, d) + [at])
  }

  lemma LockWith(cfg: Policy, run: Run, who: string, ip: Option<string>, at: Time, d: Dim)
    requires Timed(Then(run, Fail(who, ip, at))) && d in Dimensions(who, ip)
    ensures LockOf(cfg, TableOf(cfg, Then(run, Fail(who, ip, at))), d) == LockSeconds(cfg, StreakWith(cfg, run, d, at))
  {
    FailureCounts(cfg, run, who, ip, at, d);
  }

  /** A failure is told the longest of the three locks that the streaks ending with it ask for. */
  lemma LongestIsTold(cfg: Policy, run: Run, who: string, ip: Option<string>, at: Time)
    requires Timed(Then(run, Fail(who, ip, at)))
    ensures Told(cfg, run, who, ip, at).retryAfter
         == Max(Max(LockSeconds(cfg, StreakWith(cfg, run, ById(who), at)),
                    LockSeconds(cfg, StreakWith(cfg, run, ByIp(IpKey(ip)), at))),
                LockSeconds(cfg, StreakWith(cfg, run, ByCombo(who, IpKey(ip)), at)))
  {
    var dims := Dimensions(who, ip);
    LongestOfThree(dims, LockMeter(cfg, TableOf(cfg, Then(run, Fail(who, ip, at)))));
    LockWith(cfg, run, who, ip, at, dims[0]);
    LockWith(cfg, run, who, ip, at, dims[1]);
    LockWith(cfg, run, who, ip, at, dims[2]);
  }

  lemma OwnStreakLocksAccount(cfg: Policy, run: Run, who: string, ip: Option<string>, at: Time)
    requires Timed(Then(run, Fail(who, ip, at)))
    ensures Told(cfg, run, who, ip, at).accountLocked
       <==> StreakWith(cfg, run, ById(who), at) >= cfg.maxAttempts
  {
    AccountLockedByOwnFailuresOnly(cfg, run, who, ip, at);
    StreakIsLongestTightSuffix(cfg, Failures(run, ById(who)) + [at], cfg.maxAttempts);
  }

  /** A failure that locks the account locks it for the longest of the three locks, the address's included.
      That is the lock which the identifier's own failures ask for exactly when this is the policy's longest
      already, or neither the address nor the combination has a longer streak of failures. */
  lemma AccountLockIsOwnLockIff(cfg: Policy, run: Run, who: string, ip: Option<string>, at: Time)
    requires Timed(Then(run, Fail(who, ip, at)))
    requires Told(cfg, run, who, ip, at).accountLocked
    ensures var told := Told(cfg, run, who, ip, at).retryAfter;
            var own := StreakWith(cfg, run, ById(who), at);
            && own >= cfg.maxAttempts && told >= LockSeconds(cfg, own)
            && (told == LockSeconds(cfg, own) <==>
                  || own >= cfg.maxAttempts + 6
                  || Doubled(cfg.lockoutSeconds, own - cfg.maxAttempts) >= cfg.backoffSeconds
                  || (&& StreakWith(cfg, run, ByIp(IpKey(ip)), at) <= own
                      && StreakWith(cfg, run, ByCombo(who, IpKey(ip)), at) <= own))
  {
    var own := StreakWith(cfg, run, ById(who), at);
    OwnStreakLocksAccount(cfg, run, who, ip, at);
    LongestIsTold(cfg, run, who, ip, at);
    OwnLockIsLongestIff(cfg, own, StreakWith(cfg, run, ByIp(IpKey(ip)), at), StreakWith(cfg, run, ByCombo(who, IpKey(ip)), at));
  }

  lemma AttemptedFailures(run: Run, who: string, ip: Option<string>, at: Time, d: Dim)
    ensures Failures(Attempted(run, who, ip, at), d)
         == if d in Dimensions(who, ip) then Failures(run, d) + [at] else Failures(run, d)
  {
  }

  /** The latest lock on this dimension, if any, has ended. */
  predicate LockOver(cfg: Policy, h: seq<Time>, now: Time) {
    |h| > 0 ==> Last(h) + Seconds(LockSeconds(cfg, Streak(cfg, h))) <= now
  }

  lemma AttemptedIsGuarded(cfg: Policy, run: Run, who: string, ip: Option<string>, at: Time)
    requires Timed(run) && Guarded(cfg, run) && Clock(run) <= at
    requires forall d :: d in Dimensions(who, ip) ==> LockOver(cfg, Failures(run, d), at)
    ensures Timed(Attempted(run, who, ip, at)) && Clock(Attempted(run, who, ip, at)) == at
    ensures Guarded(cfg, Attempted(run, who, ip, at))
  {
    var table, dims := TableOf(cfg, run), Dimensions(who, ip);
    forall d | d in dims
      ensures WaitMeter(table, at)(d) == 0
    {
      assert LockOver(cfg, Failures(run, d), at);
      CounterRefinesHistory(cfg, run, d);
    }
    LongestBounds(dims, WaitMeter(table, at));
    var checked := Then(run, Check(who, ip, at));
    assert Timed(checked) && Guarded(cfg, checked) && Admitted(cfg, checked, who, ip);
  }

  /** Two failures of another identifier on an address, one second apart. */
  function SharedAddressRun(other: string, ip: Option<string>, at: Time): Run {
    Attempted(Attempted(Start(at), other, ip, at), other, ip, at + Seconds(1))
  }

  predicate OneSecondPolicy(cfg: Policy) {
    cfg.maxAttempts == 1 && cfg.lockoutSeconds == 1 && cfg.backoffSeconds == 8
  }

  lemma FirstLocks(cfg: Policy)
    requires OneSecondPolicy(cfg)
    ensures LockSeconds(cfg, 1) == 1 && LockSeconds(cfg, 2) == 2 && LockSeconds(cfg, 3) == 4
  {
    assert Doubled(1, 0) == 1 && Doubled(1, 1) == 2 && Doubled(1, 2) == 4;
  }

  lemma FirstStreaks(cfg: Policy, at: Time)
    requires OneSecondPolicy(cfg)
    ensures Streak(cfg, [at]) == 1 && Streak(cfg, [at, at + Seconds(1)]) == 2
    ensures Streak(cfg, [at, at + Seconds(1), at + Seconds(3)]) == 3
  {
    var three := [at, at + Seconds(1), at + Seconds(3)];
    assert Front(three) == [at, at + Seconds(1)] && Front(Front(three)) == [at];
    assert Streak(cfg, Front(Front(three))) == 1;
    assert Streak(cfg, Front(three)) == 2;
  }

  lemma SharedAddressFailures(other: string, ip: Option<string>, at: Time, d: Dim)
    ensures Failures(SharedAddressRun(other, ip, at), d)
         == if d in Dimensions(other, ip) then [at, at + Seconds(1)] else []
  {
    AttemptedFailures(Start(at), other, ip, at, d);
    AttemptedFailures(Attempted(Start(at), other, ip, at), other, ip, at + Seconds(1), d);
  }

  lemma SharedAddressIsGuarded(cfg: Policy, other: string, ip: Option<string>, at: Time)
    requires OneSecondPolicy(cfg)
    ensures Timed(SharedAddressRun(other, ip, at)) && Clock(SharedAddressRun(other, ip, at)) == at + Seconds(1)
    ensures Guarded(cfg, SharedAddressRun(other, ip, at))
  {
    var once := Attempted(Start(at), other, ip, at);
    FirstLocks(cfg);
    FirstStreaks(cfg, at);
    AttemptedIsGuarded(cfg, Start(at), other, ip, at);
    forall d | d in Dimensions(other, ip)
      ensures LockOver(cfg, Failures(once, d), at + Seconds(1))
    {
      AttemptedFailures(Start(at), other, ip, at, d);
      assert Failures(once, d) == [at];
    }
    AttemptedIsGuarded(cfg, once, other, ip, at + Seconds(1));
  }

  lemma SharedAddressAnswer(cfg: Policy, run: Run, who: string, ip: Option<string>, now: Time)
    requires OneSecondPolicy(cfg) && Timed(run) && Clock(run) <= now
    requires forall d :: d in Dimensions(who, ip) ==> StreakWith(cfg, run, d, now) == if d.ByIp? then 3 else 1
    ensures Told(cfg, run, who, ip, now) == LockoutState(true, 4, true)
  {
    var dims := Dimensions(who, ip);
    assert dims[0] in dims && dims[1] in dims && dims[2] in dims;
    FirstLocks(cfg);
    LongestIsTold(cfg, run, who, ip, now);
    OwnStreakLocksAccount(cfg, run, who, ip, now);
  }

  /** Sequential logins that all pass their checks: two failures of another identifier on an address lengthen
      the account lock that the first failure of this identifier brings there, to four seconds where its own
      counter asks for one. */
  lemma SharedAddressLengthensAccountLock(cfg: Policy, who: string, other: string, ip: Option<string>, at: Time)
    requires OneSecondPolicy(cfg) && who != other
    ensures var run, now := SharedAddressRun(other, ip, at), at + Seconds(3);
            && Timed(Attempted(run, who, ip, now)) && Guarded(cfg, Attempted(run, who, ip, now))
            && Told(cfg, run, who, ip, now) == LockoutState(true, 4, true)
            && LockSeconds(cfg, StreakWith(cfg, run, ById(who), now)) == 1
  {
    var run, now := SharedAddressRun(other, ip, at), at + Seconds(3);
    FirstLocks(cfg);
    FirstStreaks(cfg, at);
    FirstStreaks(cfg, now);
    SharedAddressIsGuarded(cfg, other, ip, at);
    forall d | d in Dimensions(who, ip)
      ensures Failures(run, d) == if d.ByIp? then [at, at + Seconds(1)] else []
      ensures LockOver(cfg, Failures(run, d), now)
      ensures StreakWith(cfg, run, d, now) == if d.ByIp? then 3 else 1
    {
      SharedAddressFailures(other, ip, at, d);
      assert [at, at + Seconds(1)] + [now] == [at, at + Seconds(1), now] && [] + [now] == [now];
    }
    AttemptedIsGuarded(cfg, run, who, ip, now);
    SharedAddressAnswer(cfg, run, who, ip, now);
  }
}
