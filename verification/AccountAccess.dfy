/** What single steps do to a user's status and sessions, and who can authenticate. */
module AccountAccess {
  import opened Common
  import opened Accounts
  import opened AccountLeaving

  /** The first verification of an address makes a PENDING user ACTIVE and touches no other status; a further
      one changes nothing at all. */
  lemma VerificationActivatesOnce(run: Run, u: UserId)
    requires u in StateOf(run).users
    ensures var s, t := StateOf(run), StateOf(Then(run, VerifyEmail(u)));
            && u in t.users && t.users[u].emailVerifiedAt.Some? && t.users[u].isActive == s.users[u].isActive
            && (if s.users[u].emailVerifiedAt.Some? then t == s
                else && t.users[u].emailVerifiedAt == Some(s.now)
                     && t.users[u].status == if s.users[u].status == Pending then Active else s.users[u].status)
            && (forall v :: v in s.users && v != u ==> v in t.users && t.users[v] == s.users[v])
            && t.sessions == s.sessions && t.bans == s.bans
            && StateOf(Then(Then(run, VerifyEmail(u)), VerifyEmail(u))) == t
  {
  }

  /** A user who has registered cannot authenticate before the address is verified, and can from then on. */
  lemma VerificationOpens(run: Run, u: UserId)
    requires u !in StateOf(run).users && forall b :: b in StateOf(run).bans ==> StateOf(run).bans[b].user != u
    ensures var registered := Then(run, Register(u, User(Pending, true, None)));
            && !CanAuthenticate(StateOf(registered), u)
            && CanAuthenticate(StateOf(Then(registered, VerifyEmail(u))), u)
  {
    var registered := Then(run, Register(u, User(Pending, true, None)));
    assert StateOf(registered).bans == StateOf(Then(registered, VerifyEmail(u))).bans == StateOf(run).bans;
  }

  /** A login passes its gates exactly for an enabled account that is ACTIVE and has no ban which is unrevoked,
      started and unexpired at that instant. */
  lemma GatesOpenIff(run: Run, l: nat, u: UserId)
    requires l !in StateOf(run).logins
    ensures var s := StateOf(run);
            l in StateOf(Then(run, Admit(l, u))).logins
            <==> && u in s.users && s.users[u].isActive && s.users[u].status == Active
                 && forall b :: b in s.bans && s.bans[b].user == u ==>
                      || s.bans[b].revokedAt.Some? || s.bans[b].startsAt > s.now
                      || (s.bans[b].expiresAt.Some? && s.bans[b].expiresAt.value <= s.now)
  {
  }

  /** A ban shuts the account from its start to its expiry, also while the synchroniser has not yet run. */
  lemma BanShutsBeforeSync(run: Run, id: nat, u: UserId, startsAt: Time, expiresAt: Option<Time>, now: Time)
    requires Acceptable(StateOf(run), id, u, Some(startsAt), expiresAt)
    requires StateOf(run).now <= now && startsAt <= now && (expiresAt.Some? ==> now < expiresAt.value)
    ensures var later := Then(Then(run, Impose(id, u, Some(startsAt), expiresAt)), Tick(now));
            && !CanAuthenticate(StateOf(later), u)
            && (startsAt > StateOf(run).now ==> u in StateOf(later).users && StateOf(later).users[u] == StateOf(run).users[u])
  {
    var later := Then(Then(run, Impose(id, u, Some(startsAt), expiresAt)), Tick(now));
    assert StateOf(later).bans[id] == Ban(u, startsAt, expiresAt, None);
    assert StateOf(later).now == now;
  }

  /** The clean-up of sessions deletes exactly those revoked longer ago than their retention. */
  lemma CleanupDeletesIff(s: State, retention: nat, k: nat)
    requires k in s.sessions
    ensures var t := Apply(s, CleanupSessions(retention));
            && (k !in t.sessions <==> s.sessions[k].revokedAt.Some? && s.sessions[k].revokedAt.value + retention < s.now)
            && (k in t.sessions ==> t.sessions[k] == s.sessions[k])
            && t.sessions.Keys <= s.sessions.Keys
  {
  }

  // ---------------------------------------------------------------------------------------
  // Single steps
  // ---------------------------------------------------------------------------------------

  /** `t` is `s` with exactly the open sessions of the user, the kept one aside, revoked now. */
  predicate ClosedAllBut(s: State, t: State, u: UserId, keep: Option<nat>) {
    && t.sessions.Keys == s.sessions.Keys
    && forall k :: k in s.sessions ==>
         t.sessions[k]
         == if s.sessions[k].user == u && s.sessions[k].revokedAt == None && keep != Some(k)
            then Session(u, Some(s.now)) else s.sessions[k]
  }

  /** A change of password or address closes every session but the current one and leaves every status alone;
      only a change of address verifies it. */
  lemma ChangeKeepsCurrentSession(run: Run, u: UserId, emailChanged: bool, keep: Option<nat>)
    requires u in StateOf(run).users
    ensures var s, t := StateOf(run), StateOf(Then(run, ChangeCredentials(u, emailChanged, keep)));
            && ClosedAllBut(s, t, u, keep) && u in t.users
            && t.users[u].status == s.users[u].status && t.users[u].isActive == s.users[u].isActive
            && t.users[u].emailVerifiedAt == (if emailChanged then Some(s.now) else s.users[u].emailVerifiedAt)
            && (forall v :: v in s.users && v != u ==> v in t.users && t.users[v] == s.users[v])
            && t.bans == s.bans && t.logins == s.logins
  {
  }

  /** Deactivation and deletion mark the user as what they are called, and close every session. */
  lemma LeavingMarks(run: Run, u: UserId)
    requires u in StateOf(run).users
    ensures var s := StateOf(run);
            var off, gone := StateOf(Then(run, Deactivate(u))), StateOf(Then(run, ConfirmDeletion(u)));
            && u in off.users && off.users[u] == User(Deactivated, false, s.users[u].emailVerifiedAt)
            && u in gone.users && gone.users[u] == User(Deleted, false, None)
            && ClosedAllBut(s, off, u, None) && ClosedAllBut(s, gone, u, None)
            && (forall v :: v in s.users && v != u ==> off.users[v] == gone.users[v] == s.users[v])
  {
  }

  /** A ban is refused exactly when its row is there, its user is not, or it would expire no later than it starts;
      otherwise it is recorded as given, starting now if no start is given. */
  lemma BanIsRecordedIff(run: Run, id: nat, u: UserId, startsAt: Option<Time>, expiresAt: Option<Time>)
    requires id !in StateOf(run).bans
    ensures var s, t := StateOf(run), StateOf(Then(run, Impose(id, u, startsAt, expiresAt)));
            var from := if startsAt.None? then s.now else startsAt.value;
            if u !in s.users || (expiresAt.Some? && expiresAt.value <= from) then t == s
            else t.bans == s.bans[id := Ban(u, from, expiresAt, None)]
                 && (from <= s.now ==> ClosedAllBut(s, t, u, None)) && (from > s.now ==> t.sessions == s.sessions)
  {
  }

  /** A login past its gates ends once: with a session of its user, or dropped without one. */
  lemma LoginEndsOnce(run: Run, l: nat, k: nat)
    requires l in StateOf(run).logins
    ensures var s := StateOf(run);
            StateOf(Then(run, Open(l, k))) == s.(logins := s.logins - {l}, sessions := s.sessions[k := Session(s.logins[l], None)])
    ensures StateOf(Then(run, Drop(l))) == StateOf(run).(logins := StateOf(run).logins - {l})
    ensures var after := Then(run, Drop(l));
            StateOf(Then(after, Open(l, k))) == StateOf(after)
  {
  }

  /** An open session is revoked at the instant of its revocation, one that is revoked stays as it is, and no
      other session changes. */
  lemma SessionIsRevokedOnce(run: Run, k: nat)
    requires k in StateOf(run).sessions
    ensures var s, t := StateOf(run), StateOf(Then(run, RevokeSession(k)));
            && t == s.(sessions := t.sessions) && t.sessions.Keys == s.sessions.Keys
            && (forall o :: o in s.sessions && o != k ==> t.sessions[o] == s.sessions[o])
            && t.sessions[k] == if s.sessions[k].revokedAt == None then Session(s.sessions[k].user, Some(s.now)) else s.sessions[k]
  {
  }
}
