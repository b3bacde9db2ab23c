/**
 Accounts, bans and sessions: the status that ban, revocation, the e-mail and leaving flows and the
 periodic synchroniser maintain, and the sessions that they close.
 */
module Accounts {
  import opened Common

  type UserId = nat

  datatype Status = Active | Pending | Suspended | Banned | Deactivated | Deleted

  datatype User = User(status: Status, isActive: bool, emailVerifiedAt: Option<Time>)

  datatype Ban = Ban(user: UserId, startsAt: Time, expiresAt: Option<Time>, revokedAt: Option<Time>)

  datatype Session = Session(user: UserId, revokedAt: Option<Time>)

  /** `logins` are the logins that have passed every gate and have not yet registered their session. */
  datatype State = State(
    now: Time, users: map<UserId, User>, bans: map<nat, Ban>, sessions: map<nat, Session>, logins: map<nat, UserId>)

  // ---------------------------------------------------------------------------------------
  // The simple predicates
  // ---------------------------------------------------------------------------------------

  predicate InForce(ban: Ban, now: Time) {
    ban.revokedAt.None? && ban.startsAt <= now
  }

  predicate Unexpired(ban: Ban, now: Time) {
    ban.expiresAt.None? || ban.expiresAt.value > now
  }

  predicate IsActive(ban: Ban, now: Time) {
    InForce(ban, now) && Unexpired(ban, now)
  }

  predicate HasActiveBan(s: State, u: UserId) {
    exists b :: b in s.bans && s.bans[b].user == u && IsActive(s.bans[b], s.now)
  }

  predicate CanAuthenticate(s: State, u: UserId) {
    u in s.users && s.users[u].isActive && s.users[u].status.Active? && !HasActiveBan(s, u)
  }

  // ---------------------------------------------------------------------------------------
  // The two queries of the synchroniser
  // ---------------------------------------------------------------------------------------

  predicate SomeInForce(s: State, u: UserId) {
    exists b :: b in s.bans && s.bans[b].user == u && InForce(s.bans[b], s.now)
  }

  predicate SomeUnexpired(s: State, u: UserId) {
    exists b :: b in s.bans && s.bans[b].user == u && Unexpired(s.bans[b], s.now)
  }

  predicate SomeRunOut(s: State, u: UserId) {
    exists b :: b in s.bans && s.bans[b].user == u && s.bans[b].revokedAt.None? && !Unexpired(s.bans[b], s.now)
  }

  /** Loop 1 filters twice through the relation to bans, so the two conditions may hold of different bans. */
  function ToBan(s: State): set<UserId> {
    set u | u in s.users && !s.users[u].status.Banned? && SomeInForce(s, u) && SomeUnexpired(s, u)
  }

  /** Loop 2 rechecks the banned users that have an unrevoked ban which has run out. */
  function ToRelease(s: State): set<UserId> {
    set u | u in s.users && s.users[u].status.Banned? && SomeRunOut(s, u) && !HasActiveBan(s, u)
  }

  function WithStatus(s: State, us: set<UserId>, status: Status): State {
    s.(users := map u | u in s.users :: if u in us then s.users[u].(status := status) else s.users[u])
  }

  /** Every open session of `us`, the kept one aside, is revoked now. */
  function SessionsRevoked(s: State, us: set<UserId>, keep: Option<nat>): State {
    s.(sessions := map k | k in s.sessions ::
                     if s.sessions[k].user in us && s.sessions[k].revokedAt.None? && keep != Some(k)
                     then s.sessions[k].(revokedAt := Some(s.now)) else s.sessions[k])
  }

  function Marked(s: State, us: set<UserId>): State {
    SessionsRevoked(WithStatus(s, us, Banned), us, None)
  }

  function Synced(s: State): State {
    var marked := Marked(s, ToBan(s));
    WithStatus(marked, ToRelease(marked), Active)
  }

  // ---------------------------------------------------------------------------------------
  // Runs
  // ---------------------------------------------------------------------------------------

  datatype Step =
    | Register(user: UserId, account: User)
    | Impose(ban: nat, user: UserId, startsAt: Option<Time>, expiresAt: Option<Time>)
    | Revoke(ban: nat)
    | VerifyEmail(user: UserId)
    | ChangeCredentials(user: UserId, emailChanged: bool, keep: Option<nat>)
    | Deactivate(user: UserId)
    | ConfirmDeletion(user: UserId)
    | Sync
    | Admit(login: nat, user: UserId)
    | Open(login: nat, session: nat)
    | Drop(login: nat)
    | RevokeSession(session: nat)
    | CleanupSessions(retention: nat)
    | Tick(to: Time)

  datatype Run = Start(at: Time) | Then(before: Run, step: Step)

  /** The start must come before the expiry, or the database refuses the row. */
  predicate Acceptable(s: State, id: nat, u: UserId, startsAt: Option<Time>, expiresAt: Option<Time>) {
    && u in s.users && id !in s.bans
    && (expiresAt.Some? ==> expiresAt.value > if startsAt.Some? then startsAt.value else s.now)
  }

  function Imposed(s: State, id: nat, u: UserId, startsAt: Option<Time>, expiresAt: Option<Time>): State {
    var from := if startsAt.Some? then startsAt.value else s.now;
    var banned := s.(bans := s.bans[id := Ban(u, from, expiresAt, None)]);
    if from <= s.now then Marked(banned, {u}) else banned
  }

  function Revoked(s: State, id: nat): State
    requires id in s.bans
  {
    var u := s.bans[id].user;
    var revoked := s.(bans := s.bans[id := s.bans[id].(revokedAt := Some(s.now))]);
    if !HasActiveBan(revoked, u) && u in s.users && s.users[u].status.Banned?
    then WithStatus(revoked, {u}, Active) else revoked
  }

  function Left(s: State, u: UserId, status: Status): State
    requires u in s.users
  {
    var user := s.users[u].(status := status, isActive := false);
    var gone := if status.Deleted? then user.(emailVerifiedAt := None) else user;
    SessionsRevoked(s.(users := s.users[u := gone]), {u}, None)
  }

  function Verified(s: State, u: UserId): State
    requires u in s.users
  {
    var user := s.users[u];
    if user.emailVerifiedAt.Some? then s
    else s.(users := s.users[u := user.(emailVerifiedAt := Some(s.now),
                                        status := if user.status.Pending? then Active else user.status)])
  }

  function Apply(s: State, step: Step): State {
    match step
    case Register(u, account) =>
      if u in s.users || account.status.Banned? then s else s.(users := s.users[u := account])
    case Impose(id, u, startsAt, expiresAt) =>
      if Acceptable(s, id, u, startsAt, expiresAt) then Imposed(s, id, u, startsAt, expiresAt) else s
    case Revoke(id) =>
      if id in s.bans && s.bans[id].revokedAt.None? then Revoked(s, id) else s
    case VerifyEmail(u) =>
      if u in s.users then Verified(s, u) else s
    case ChangeCredentials(u, emailChanged, keep) =>
      if u !in s.users then s
      else
        var user := if emailChanged then s.users[u].(emailVerifiedAt := Some(s.now)) else s.users[u];
        SessionsRevoked(s.(users := s.users[u := user]), {u}, keep)
    case Deactivate(u) =>
      if u in s.users then Left(s, u, Deactivated) else s
    case ConfirmDeletion(u) =>
      if u in s.users then Left(s, u, Deleted) else s
    case Sync => Synced(s)
    case Admit(l, u) =>
      if l !in s.logins && CanAuthenticate(s, u) then s.(logins := s.logins[l := u]) else s
    case Open(l, k) =>
      if l !in s.logins then s
      else s.(sessions := s.sessions[k := Session(s.logins[l], None)], logins := s.logins - {l})
    case Drop(l) => s.(logins := s.logins - {l})
    case RevokeSession(k) =>
      if k in s.sessions && s.sessions[k].revokedAt.None?
      then s.(sessions := s.sessions[k := s.sessions[k].(revokedAt := Some(s.now))]) else s
    case CleanupSessions(retention) =>
      s.(sessions := map k | k in s.sessions
                        && !(s.sessions[k].revokedAt.Some? && s.sessions[k].revokedAt.value < s.now - retention)
                        :: s.sessions[k])
    case Tick(to) => s.(now := Max(s.now, to))
  }

  function StateOf(run: Run): State {
    match run
    case Start(at) => State(at, map[], map[], map[], map[])
    case Then(before, step) => Apply(StateOf(before), step)
  }

  predicate Extends(earlier: Run, run: Run) {
    earlier == run || (run.Then? && Extends(earlier, run.before))
  }

  // ---------------------------------------------------------------------------------------
  // The status agrees with the simple predicate after a synchronisation
  // ---------------------------------------------------------------------------------------

  predicate BannedHasBan(s: State) {
    forall u :: u in s.users && s.users[u].status.Banned? ==> SomeInForce(s, u)
  }

  lemma SameBansSameAnswers(s: State, t: State, u: UserId)
    requires s.bans == t.bans && s.now == t.now
    ensures SomeInForce(s, u) == SomeInForce(t, u) && SomeUnexpired(s, u) == SomeUnexpired(t, u)
    ensures SomeRunOut(s, u) == SomeRunOut(t, u) && HasActiveBan(s, u) == HasActiveBan(t, u)
  {
  }

  lemma ImposedKeepsBannedHasBan(s: State, id: nat, u: UserId, startsAt: Option<Time>, expiresAt: Option<Time>)
    requires BannedHasBan(s) && Acceptable(s, id, u, startsAt, expiresAt)
    ensures BannedHasBan(Imposed(s, id, u, startsAt, expiresAt))
  {
    var after := Imposed(s, id, u, startsAt, expiresAt);
    forall v | v in after.users && after.users[v].status.Banned?
      ensures SomeInForce(after, v)
    {
      if s.users[v].status.Banned? {
        var b :| b in s.bans && s.bans[b].user == v && InForce(s.bans[b], s.now);
        assert after.bans[b] == s.bans[b];
      } else {
        assert after.bans[id].user == v && InForce(after.bans[id], after.now);
      }
    }
  }

  lemma RevokedKeepsBannedHasBan(s: State, id: nat)
    requires BannedHasBan(s) && id in s.bans && s.bans[id].revokedAt.None?
    ensures BannedHasBan(Revoked(s, id))
  {
    var after, u := Revoked(s, id), s.bans[id].user;
    forall v | v in after.users && after.users[v].status.Banned?
      ensures SomeInForce(after, v)
    {
      if v == u {
        assert HasActiveBan(after, u);
      } else {
        var b :| b in s.bans && s.bans[b].user == v && InForce(s.bans[b], s.now);
        assert after.bans[b] == s.bans[b];
      }
    }
  }

  lemma SyncedKeepsBannedHasBan(s: State)
    requires BannedHasBan(s)
    ensures BannedHasBan(Synced(s))
  {
    forall u {
      SameBansSameAnswers(s, Synced(s), u);
    }
  }

  lemma TickKeepsBannedHasBan(s: State, to: Time)
    requires BannedHasBan(s)
    ensures BannedHasBan(Apply(s, Tick(to)))
  {
    var after := Apply(s, Tick(to));
    forall u | u in s.users && s.users[u].status.Banned?
      ensures SomeInForce(after, u)
    {
      var b :| b in s.bans && s.bans[b].user == u && InForce(s.bans[b], s.now);
      assert after.bans[b] == s.bans[b] && InForce(after.bans[b], after.now);
    }
  }

  lemma OtherStepsKeepBannedHasBan(s: State, step: Step)
    requires BannedHasBan(s) && !step.Impose? && !step.Revoke? && !step.Sync? && !step.Tick?
    ensures BannedHasBan(Apply(s, step))
  {
    var t := Apply(s, step);
    assert t.bans == s.bans && t.now == s.now;
    forall u | u in t.users && t.users[u].status.Banned?
      ensures SomeInForce(t, u)
    {
      assert u in s.users && s.users[u].status.Banned?;
      SameBansSameAnswers(s, t, u);
    }
  }

  lemma StepKeepsBannedHasBan(s: State, step: Step)
    requires BannedHasBan(s)
    ensures BannedHasBan(Apply(s, step))
  {
    match step
    case Impose(id, u, startsAt, expiresAt) =>
      if Acceptable(s, id, u, startsAt, expiresAt) {
        ImposedKeepsBannedHasBan(s, id, u, startsAt, expiresAt);
      }
    case Revoke(id) =>
      if id in s.bans && s.bans[id].revokedAt.None? {
        RevokedKeepsBannedHasBan(s, id);
      }
    case Sync => SyncedKeepsBannedHasBan(s);
    case Tick(to) => TickKeepsBannedHasBan(s, to);
    case _ => OtherStepsKeepBannedHasBan(s, step);
  }

  lemma {:induction false} BannedUsersHaveABan(run: Run)
    ensures BannedHasBan(StateOf(run))
  {
    if run.Then? {
      BannedUsersHaveABan(run.before);
      StepKeepsBannedHasBan(StateOf(run.before), run.step);
    }
  }

  lemma ActiveBanMeetsBothFilters(s: State, u: UserId)
    ensures HasActiveBan(s, u) ==> SomeInForce(s, u) && SomeUnexpired(s, u)
    ensures SomeInForce(s, u) && !HasActiveBan(s, u) ==> SomeRunOut(s, u)
  {
    if HasActiveBan(s, u) {
      var b :| b in s.bans && s.bans[b].user == u && IsActive(s.bans[b], s.now);
      assert InForce(s.bans[b], s.now) && Unexpired(s.bans[b], s.now);
    } else if SomeInForce(s, u) {
      var b :| b in s.bans && s.bans[b].user == u && InForce(s.bans[b], s.now);
      assert !IsActive(s.bans[b], s.now);
    }
  }

  /** What the two loops come to for one user. */
  lemma SyncDecides(s: State, u: UserId)
    requires u in s.users
    ensures u in Synced(s).users
    ensures Synced(s).users[u].isActive == s.users[u].isActive
    ensures Synced(s).users[u].status
         == if HasActiveBan(s, u) then Banned
            else if (s.users[u].status.Banned? && SomeRunOut(s, u)) || (SomeInForce(s, u) && SomeUnexpired(s, u)) then Active
            else s.users[u].status
  {
    var marked := Marked(s, ToBan(s));
    SameBansSameAnswers(s, marked, u);
    ActiveBanMeetsBothFilters(s, u);
  }

  /** From any state whatever, a synchronisation in one step makes the status of a user agree with the bans
      exactly if the user was not BANNED without either an active ban or an unrevoked one that has run out. */
  lemma SyncAgreesIff(s: State, u: UserId)
    requires u in s.users
    ensures u in Synced(s).users && HasActiveBan(Synced(s), u) == HasActiveBan(s, u)
    ensures (Synced(s).users[u].status.Banned? <==> HasActiveBan(s, u))
       <==> (s.users[u].status.Banned? ==> HasActiveBan(s, u) || SomeRunOut(s, u))
  {
    SyncDecides(s, u);
    SameBansSameAnswers(s, Synced(s), u);
  }

  /** After every synchronisation, in every run, a user is marked as banned exactly when one single ban is
      unrevoked, started and unexpired at that instant. */
  lemma StatusAgreesAfterSync(run: Run, u: UserId)
    requires u in StateOf(run).users
    ensures var after := StateOf(Then(run, Sync));
            u in after.users && (after.users[u].status.Banned? <==> HasActiveBan(after, u))
  {
    BannedUsersHaveABan(run);
    ActiveBanMeetsBothFilters(StateOf(run), u);
    SyncAgreesIff(StateOf(run), u);
  }
}
