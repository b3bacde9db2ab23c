/** One-time tokens: issue, consumption inside an outer operation, and the periodic clean-up. */
module Tokens {
  import opened Common

  datatype Purpose = EmailVerification | PasswordReset | EmailChange | AccountDeletion

  /** Keyed hashes are injective, so a row is found under the raw token and its purpose. */
  type Key = (string, Purpose)

  datatype Token = Token(user: nat, expiresAt: Time, usedAt: Option<Time>)

  type Table = map<Key, Token>

  datatype Step =
    | Issue(user: nat, purpose: Purpose, raw: string, ttl: Time, at: Time)
    | Consume(raw: string, purpose: Purpose, completes: bool, at: Time)
    | Cleanup(retention: nat, at: Time)

  datatype Run = Start(at: Time) | Then(before: Run, step: Step)

  /** Every unused token of the user for this purpose is marked as used. */
  function Superseded(table: Table, user: nat, purpose: Purpose, now: Time): Table {
    map k | k in table ::
      if table[k].user == user && k.1 == purpose && table[k].usedAt.None? then table[k].(usedAt := Some(now)) else table[k]
  }

  predicate Usable(table: Table, key: Key, now: Time) {
    key in table && table[key].usedAt.None? && table[key].expiresAt > now
  }

  /** A raw token that is already stored breaks the unique hash: the transaction is rolled back. An outer
      operation that does not complete rolls its consumption back. */
  function Apply(table: Table, step: Step): Table {
    match step
    case Issue(user, purpose, raw, ttl, at) =>
      if (raw, purpose) in table then table
      else Superseded(table, user, purpose, at)[(raw, purpose) := Token(user, at + ttl, None)]
    case Consume(raw, purpose, completes, at) =>
      if completes && Usable(table, (raw, purpose), at)
      then table[(raw, purpose) := table[(raw, purpose)].(usedAt := Some(at))] else table
    case Cleanup(retention, at) =>
      map k | k in table && table[k].expiresAt >= at - retention :: table[k]
  }

  function Clock(run: Run): Time {
    match run
    case Start(at) => at
    case Then(_, step) => step.at
  }

  predicate Timed(run: Run) {
    run.Then? ==> Timed(run.before) && Clock(run.before) <= run.step.at
  }

  function TableOf(run: Run): Table {
    match run
    case Start(_) => map[]
    case Then(before, step) => Apply(TableOf(before), step)
  }

  predicate Issued(run: Run, key: Key) {
    match run
    case Start(_) => false
    case Then(before, Issue(_, purpose, raw, _, _)) => key == (raw, purpose) || Issued(before, key)
    case Then(before, _) => Issued(before, key)
  }

  /** Generated tokens do not repeat. */
  predicate FreshTokens(run: Run) {
    match run
    case Start(_) => true
    case Then(before, Issue(_, purpose, raw, _, _)) => FreshTokens(before) && !Issued(before, (raw, purpose))
    case Then(before, _) => FreshTokens(before)
  }

  // ---------------------------------------------------------------------------------------
  // When a token is good
  // ---------------------------------------------------------------------------------------

  datatype Grant = Grant(user: nat, until: Time)

  /** What the latest issue of the key granted, unless a later issue for the same user and purpose
      superseded it or a consumption of it committed. */
  function GrantOf(run: Run, key: Key): Option<Grant> {
    match run
    case Start(_) => None
    case Then(before, Issue(user, purpose, raw, ttl, at)) =>
      var prior := GrantOf(before, key);
      if key == (raw, purpose) then Some(Grant(user, at + ttl))
      else if prior.Some? && prior.value.user == user && key.1 == purpose then None
      else prior
    case Then(before, Consume(raw, purpose, completes, at)) =>
      var prior := GrantOf(before, key);
      if key == (raw, purpose) && completes && prior.Some? && at < prior.value.until then None else prior
    case Then(before, Cleanup(_, _)) => GrantOf(before, key)
  }

  predicate RowTells(row: Option<Token>, grant: Option<Grant>, now: Time) {
    match grant
    case None => row.None? || row.value.usedAt.Some?
    case Some(g) => row == Some(Token(g.user, g.until, None)) || (row.None? && g.until < now)
  }

  lemma {:induction false} RowsTellGrants(run: Run, key: Key)
    requires Timed(run) && FreshTokens(run)
    ensures RowTells(Find(TableOf(run), key), GrantOf(run, key), Clock(run))
    ensures key in TableOf(run) ==> Issued(run, key)
  {
    if run.Then? {
      RowsTellGrants(run.before, key);
      if run.step.Issue? {
        RowsTellGrants(run.before, (run.step.raw, run.step.purpose));
      }
    }
  }

  /** A consumption succeeds exactly when the token was issued for the purpose, has not been superseded by a
      later issue nor spent by an earlier committed consumption, and its time is not up. */
  lemma ConsumeSucceedsIff(run: Run, key: Key, now: Time)
    requires Timed(run) && FreshTokens(run) && Clock(run) <= now
    ensures Usable(TableOf(run), key, now) <==> GrantOf(run, key).Some? && now < GrantOf(run, key).value.until
  {
    RowsTellGrants(run, key);
  }

  predicate Extends(earlier: Run, run: Run) {
    earlier == run || (run.Then? && Extends(earlier, run.before))
  }

  lemma {:induction false} GoneForGood(earlier: Run, run: Run, key: Key)
    requires Extends(earlier, run) && Timed(run) && FreshTokens(run)
    requires Issued(earlier, key) && GrantOf(earlier, key).None?
    ensures Issued(run, key) && GrantOf(run, key).None?
  {
    if earlier != run {
      GoneForGood(earlier, run.before, key);
    }
  }

  lemma {:induction false} ExtendsKeepsAssumptions(earlier: Run, run: Run)
    requires Extends(earlier, run) && Timed(run) && FreshTokens(run)
    ensures Timed(earlier) && FreshTokens(earlier)
  {
    if earlier != run {
      ExtendsKeepsAssumptions(earlier, run.before);
    }
  }

  /** A token is spent at most once: after a committed consumption no later one succeeds, ever. */
  lemma SpentOnce(run: Run, raw: string, purpose: Purpose, at: Time, later: Run, now: Time)
    requires Extends(Then(run, Consume(raw, purpose, true, at)), later)
    requires Timed(later) && FreshTokens(later) && Clock(later) <= now
    requires Usable(TableOf(run), (raw, purpose), at)
    ensures !Usable(TableOf(later), (raw, purpose), now)
  {
    var spent := Then(run, Consume(raw, purpose, true, at));
    ExtendsKeepsAssumptions(spent, later);
    RowsTellGrants(run, (raw, purpose));
    GoneForGood(spent, later, (raw, purpose));
    ConsumeSucceedsIff(later, (raw, purpose), now);
  }

  /** At most one unused token exists for a user and purpose. */
  lemma {:induction false} OneUnusedToken(run: Run, a: Key, b: Key)
    requires a in TableOf(run) && b in TableOf(run) && a.1 == b.1
    requires TableOf(run)[a].user == TableOf(run)[b].user
    requires TableOf(run)[a].usedAt.None? && TableOf(run)[b].usedAt.None?
    ensures a == b
  {
    if a in TableOf(run.before) && b in TableOf(run.before)
       && TableOf(run.before)[a].usedAt.None? && TableOf(run.before)[b].usedAt.None? {
      OneUnusedToken(run.before, a, b);
    }
  }

  // ---------------------------------------------------------------------------------------
  // What single steps leave behind
  // ---------------------------------------------------------------------------------------

  /** An issue uses up, now, exactly the unused tokens of its user and purpose, and adds its own; a token that is
      there already makes it fail without a trace. */
  lemma IssueSupersedes(table: Table, user: nat, purpose: Purpose, raw: string, ttl: Time, at: Time, k: Key)
    ensures var after := Apply(table, Issue(user, purpose, raw, ttl, at));
            if (raw, purpose) in table then after == table
            else Find(after, k)
                 == if k == (raw, purpose) then Some(Token(user, at + ttl, None))
                    else if k in table && table[k].user == user && k.1 == purpose && table[k].usedAt == None
                    then Some(Token(user, table[k].expiresAt, Some(at)))
                    else Find(table, k)
  {
  }

  /** A completed consumption uses a token that is unused and unexpired, now, and nothing else; any other leaves
      everything as it is. */
  lemma ConsumptionSpends(table: Table, raw: string, purpose: Purpose, completes: bool, at: Time, k: Key)
    ensures Find(Apply(table, Consume(raw, purpose, completes, at)), k)
         == if completes && k == (raw, purpose) && k in table && table[k].usedAt == None && at < table[k].expiresAt
            then Some(Token(table[k].user, table[k].expiresAt, Some(at)))
            else Find(table, k)
  {
  }

  // ---------------------------------------------------------------------------------------
  // The stored tokens
  // ---------------------------------------------------------------------------------------

  datatype ConsumeResult = InvalidToken | Consumed(token: Token)

  class TokenStore {
    var rows: Table
    ghost var log: Run

    ghost predicate Valid()
      reads this
    {
      rows == TableOf(log) && Timed(log) && FreshTokens(log)
    }

    constructor (at: Time)
      ensures Valid() && log == Start(at)
    {
      rows, log := map[], Start(at);
    }

    method Issue(user: nat, purpose: Purpose, raw: string, ttl: Time, now: Time)
      requires Valid() && Clock(log) <= now && !Issued(log, (raw, purpose))
      modifies this
      ensures Valid() && log == Then(old(log), Step.Issue(user, purpose, raw, ttl, now))
      ensures GrantOf(log, (raw, purpose)) == Some(Grant(user, now + ttl))
      ensures forall k :: k in rows && k.1 == purpose && rows[k].user == user && rows[k].usedAt.None? ==> k == (raw, purpose)
    {
      RowsTellGrants(log, (raw, purpose));
      rows := Superseded(rows, user, purpose, now);
      rows := rows[(raw, purpose) := Token(user, now + ttl, None)];
      log := Then(log, Step.Issue(user, purpose, raw, ttl, now));
    }

    method Consume(raw: string, purpose: Purpose, now: Time) returns (result: ConsumeResult)
      modifies `rows
      ensures result.Consumed? <==> Usable(old(rows), (raw, purpose), now)
      ensures rows == Apply(old(rows), Step.Consume(raw, purpose, true, now))
      ensures result.Consumed? ==> result.token == rows[(raw, purpose)]
    {
      if (raw, purpose) !in rows {
        return InvalidToken;
      }
      var token := rows[(raw, purpose)];
      if token.usedAt.Some? || token.expiresAt <= now {
        return InvalidToken;
      }
      token := token.(usedAt := Some(now));
      rows := rows[(raw, purpose) := token];
      result := Consumed(token);
    }

    /** An operation that consumes a token first, in one transaction: if the rest of it fails, for a refused
        password or an address that is taken, the consumption is rolled back with it. */
    method ConsumeWithin(raw: string, purpose: Purpose, completes: bool, now: Time) returns (done: bool)
      requires Valid() && Clock(log) <= now
      modifies this
      ensures Valid() && log == Then(old(log), Step.Consume(raw, purpose, completes, now))
      ensures done <==> completes && (var grant := GrantOf(old(log), (raw, purpose)); grant.Some? && now < grant.value.until)
      ensures done ==> GrantOf(log, (raw, purpose)).None?
      ensures !done ==> rows == old(rows) && GrantOf(log, (raw, purpose)) == GrantOf(old(log), (raw, purpose))
    {
      ConsumeSucceedsIff(log, (raw, purpose), now);
      var before := rows;
      var result := Consume(raw, purpose, now);
      done := result.Consumed? && completes;
      if !done {
        rows := before;
      }
      log := Then(log, Step.Consume(raw, purpose, completes, now));
    }

    method CleanupTokens(retention: nat, now: Time) returns (deleted: nat)
      requires Valid() && Clock(log) <= now
      modifies this
      ensures Valid() && log == Then(old(log), Cleanup(retention, now))
      ensures deleted == |old(rows)| - |rows|
      ensures forall k :: Find(rows, k)
                == if k in old(rows) && old(rows)[k].expiresAt + retention < now then None else Find(old(rows), k)
    {
      var expired := set k | k in rows && rows[k].expiresAt < now - retention;
      deleted := |expired|;
      rows := rows - expired;
      assert rows.Keys == old(rows).Keys - expired;
      log := Then(log, Cleanup(retention, now));
    }
  }
}
