/**
 Login protection: the failure counters kept per identifier, per IP address and per
 combination of the two, as database rows and as cache keys.
 */
module Throttle {
  import opened Common

  /** LOGIN_MAX_ATTEMPTS, LOGIN_LOCKOUT_SECONDS and LOGIN_MAX_BACKOFF_SECONDS. */
  datatype Config = Config(maxAttempts: nat, lockoutSeconds: nat, backoffSeconds: nat)

  type Policy = c: Config | 0 < c.maxAttempts && 0 < c.lockoutSeconds && 0 < c.backoffSeconds
    witness Config(5, 300, 3600)

  function Backoff(cfg: Policy): Time {
    Seconds(cfg.backoffSeconds)
  }

  /** The shortest lock that a policy ever imposes. */
  function Spacing(cfg: Policy): Time {
    Seconds(Min(cfg.lockoutSeconds, cfg.backoffSeconds))
  }

  /** An identifier stands for its stripped and case-folded form; hashes are injective. */
  datatype Dim = ById(who: string) | ByIp(ip: string) | ByCombo(who: string, ip: string)

  function IpKey(ip: Option<string>): string {
    if ip.None? || ip.value == "" then "unknown" else ip.value
  }

  function Dimensions(who: string, ip: Option<string>): seq<Dim> {
    [ById(who), ByIp(IpKey(ip)), ByCombo(who, IpKey(ip))]
  }

  function Doubled(seconds: nat, times: nat): nat {
    if times == 0 then seconds else 2 * Doubled(seconds, times - 1)
  }

  function LockSeconds(cfg: Policy, attempts: nat): nat {
    if attempts < cfg.maxAttempts then 0
    else Min(Doubled(cfg.lockoutSeconds, Min(attempts - cfg.maxAttempts, 6)), cfg.backoffSeconds)
  }

  lemma {:induction false} DoubledIsExponential(seconds: nat, times: nat)
    ensures Doubled(seconds, times) == seconds * Pow2(times) >= seconds
  {
    if times > 0 {
      DoubledIsExponential(seconds, times - 1);
      assert seconds * (2 * Pow2(times - 1)) == 2 * (seconds * Pow2(times - 1));
    }
  }

  /** A lock is imposed exactly from the maximum on, is never longer than the backoff and never shorter than
      the policy's spacing. */
  lemma LockSecondsBounds(cfg: Policy, attempts: nat)
    ensures LockSeconds(cfg, attempts) > 0 <==> attempts >= cfg.maxAttempts
    ensures Seconds(LockSeconds(cfg, attempts)) <= Backoff(cfg)
    ensures attempts >= cfg.maxAttempts ==> Seconds(LockSeconds(cfg, attempts)) >= Spacing(cfg)
    ensures Seconds(LockSeconds(cfg, cfg.maxAttempts)) == Spacing(cfg)
  {
    if attempts >= cfg.maxAttempts {
      DoubledIsExponential(cfg.lockoutSeconds, Min(attempts - cfg.maxAttempts, 6));
    }
  }

  /** The first lock is the lockout time; each of the next six failures doubles it, up to the backoff; further
      failures leave it as it is. */
  lemma LockDoubles(cfg: Policy, attempts: nat)
    requires attempts >= cfg.maxAttempts
    ensures LockSeconds(cfg, cfg.maxAttempts) == Min(cfg.lockoutSeconds, cfg.backoffSeconds)
    ensures LockSeconds(cfg, attempts + 1)
         == if attempts < cfg.maxAttempts + 6 then Min(2 * LockSeconds(cfg, attempts), cfg.backoffSeconds)
            else LockSeconds(cfg, attempts)
  {
  }

  // ---------------------------------------------------------------------------------------
  // Database rows
  // ---------------------------------------------------------------------------------------

  datatype Row = Row(attempts: nat, lockedUntil: Option<Time>, expiresAt: Time)

  type Table = map<Dim, Row>

  function LockUntil(cfg: Policy, attempts: nat, now: Time): Option<Time> {
    if LockSeconds(cfg, attempts) > 0 then Some(now + Seconds(LockSeconds(cfg, attempts))) else None
  }

  /** What one failure at `now` makes of a dimension's row; an expired row counts as none. */
  function Bump(cfg: Policy, prior: Option<Row>, now: Time): Row {
    var attempts := (if prior.None? || prior.value.expiresAt <= now then 0 else prior.value.attempts) + 1;
    Row(attempts, LockUntil(cfg, attempts, now), now + Backoff(cfg))
  }

  function Bumps(cfg: Policy, table: Table, now: Time): Dim -> Option<Row> {
    d => Some(Bump(cfg, Find(table, d), now))
  }

  function Registered(cfg: Policy, table: Table, dims: seq<Dim>, now: Time): Table {
    Written(table, dims, Bumps(cfg, table, now))
  }

  function Removed<V>(table: map<Dim, V>, dims: seq<Dim>): map<Dim, V> {
    map d | d in table && d !in dims :: table[d]
  }

  function Swept(table: Table, now: Time): Table {
    map d | d in table && table[d].expiresAt >= now :: table[d]
  }

  // ---------------------------------------------------------------------------------------
  // Answers
  // ---------------------------------------------------------------------------------------

  datatype LockoutState = LockoutState(locked: bool, retryAfter: nat, accountLocked: bool)

  /** The largest value of `f` over the dimensions, 0 if there are none. */
  function Longest(dims: seq<Dim>, f: Dim -> nat): nat {
    if |dims| == 0 then 0 else Max(Longest(dims[..|dims| - 1], f), f(dims[|dims| - 1]))
  }

  lemma {:induction false} LongestBounds(dims: seq<Dim>, f: Dim -> nat)
    ensures forall d :: d in dims ==> f(d) <= Longest(dims, f)
    ensures Longest(dims, f) > 0 ==> exists d :: d in dims && f(d) == Longest(dims, f)
  {
    if |dims| > 0 {
      var front, last := dims[..|dims| - 1], dims[|dims| - 1];
      LongestBounds(front, f);
      assert dims == front + [last];
      assert last in dims;
      if Longest(front, f) > 0 {
        var d :| d in front && f(d) == Longest(front, f);
        assert d in dims;
      }
    }
  }

  lemma LongestCongruent(dims: seq<Dim>, f: Dim -> nat, g: Dim -> nat)
    requires forall d :: d in dims ==> f(d) == g(d)
    ensures Longest(dims, f) == Longest(dims, g)
  {
  }

  /** The lock that a failure just recorded in `table` imposes on one dimension. */
  function LockOf(cfg: Policy, table: Table, d: Dim): nat {
    if d in table then LockSeconds(cfg, table[d].attempts) else 0
  }

  function AccountLockOf(cfg: Policy, table: Table, d: Dim): nat {
    if d.ById? then LockOf(cfg, table, d) else 0
  }

  function LockMeter(cfg: Policy, table: Table): Dim -> nat {
    d => LockOf(cfg, table, d)
  }

  function AccountMeter(cfg: Policy, table: Table): Dim -> nat {
    d => AccountLockOf(cfg, table, d)
  }

  function Imposed(cfg: Policy, table: Table, dims: seq<Dim>): LockoutState {
    var longest := Longest(dims, LockMeter(cfg, table));
    LockoutState(longest > 0, longest, Longest(dims, AccountMeter(cfg, table)) > 0)
  }

  /** How long a dimension still has to wait: whole seconds, at least one while it is locked. */
  function WaitOf(table: Table, d: Dim, now: Time): nat {
    if d in table && table[d].lockedUntil.Some? && table[d].lockedUntil.value > now
    then Max(1, WholeSeconds(table[d].lockedUntil.value - now))
    else 0
  }

  function WaitMeter(table: Table, now: Time): Dim -> nat {
    d => WaitOf(table, d, now)
  }

  function CheckDatabase(table: Table, dims: seq<Dim>, now: Time): LockoutState {
    var wait := Longest(dims, WaitMeter(table, now));
    LockoutState(wait > 0, wait, false)
  }

  // ---------------------------------------------------------------------------------------
  // Runs
  // ---------------------------------------------------------------------------------------

  datatype Step =
    | Check(who: string, ip: Option<string>, at: Time)
    | Fail(who: string, ip: Option<string>, at: Time)
    | Reset(who: string, ip: Option<string>, at: Time)
    | Cleanup(at: Time)

  datatype Run = Start(at: Time) | Then(before: Run, step: Step)

  function Clock(run: Run): Time {
    match run
    case Start(at) => at
    case Then(_, step) => step.at
  }

  predicate Timed(run: Run) {
    match run
    case Start(_) => true
    case Then(before, step) => Timed(before) && Clock(before) <= step.at
  }

  function Apply(cfg: Policy, table: Table, step: Step): Table {
    match step
    case Check(_, _, _) => table
    case Fail(who, ip, at) => Registered(cfg, table, Dimensions(who, ip), at)
    case Reset(who, ip, _) => Removed(table, Dimensions(who, ip))
    case Cleanup(at) => Swept(table, at)
  }

  function TableOf(cfg: Policy, run: Run): Table {
    match run
    case Start(_) => map[]
    case Then(before, step) => Apply(cfg, TableOf(cfg, before), step)
  }

  /** What the caller of a step is told, if the step answers anything. */
  function Answer(cfg: Policy, table: Table, step: Step): Option<LockoutState> {
    match step
    case Check(who, ip, at) => Some(CheckDatabase(table, Dimensions(who, ip), at))
    case Fail(who, ip, at) =>
      Some(Imposed(cfg, Apply(cfg, table, step), Dimensions(who, ip)))
    case _ => None
  }

  /** The instants of the failures on a dimension since it was last reset. */
  function Failures(run: Run, d: Dim): seq<Time> {
    match run
    case Start(_) => []
    case Then(before, Fail(who, ip, at)) =>
      if d in Dimensions(who, ip) then Failures(before, d) + [at] else Failures(before, d)
    case Then(before, Reset(who, ip, _)) =>
      if d in Dimensions(who, ip) then [] else Failures(before, d)
    case Then(before, _) => Failures(before, d)
  }

  function Last(h: seq<Time>): Time
    requires |h| > 0
  {
    h[|h| - 1]
  }

  function Front(h: seq<Time>): seq<Time>
    requires |h| > 0
  {
    h[..|h| - 1]
  }

  predicate Sorted(h: seq<Time>) {
    forall i, j :: 0 <= i <= j < |h| ==> h[i] <= h[j]
  }

  lemma {:induction false} FailuresSorted(run: Run, d: Dim)
    requires Timed(run)
    ensures Sorted(Failures(run, d))
    ensures |Failures(run, d)| > 0 ==> Last(Failures(run, d)) <= Clock(run)
  {
    if run.Then? {
      FailuresSorted(run.before, d);
    }
  }
}
