/** Deactivation and deletion are final, except for a login that was already past its gates. */
module AccountLeaving {
  import opened Common
  import opened Accounts

  predicate HasLeft(s: State, u: UserId) {
    u in s.users && !s.users[u].isActive
  }

  predicate HasOpenSession(s: State, u: UserId) {
    exists k :: k in s.sessions && s.sessions[k].user == u && s.sessions[k].revokedAt.None?
  }

  predicate HasLoginInFlight(s: State, u: UserId) {
    exists l :: l in s.logins && s.logins[l] == u
  }

  predicate Closed(s: State, u: UserId) {
    HasLeft(s, u) && !HasOpenSession(s, u) && !HasLoginInFlight(s, u)
  }

  lemma StepKeepsLeft(s: State, step: Step, u: UserId)
    requires HasLeft(s, u)
    ensures HasLeft(Apply(s, step), u)
  {
  }

  lemma SameSessionsStayClosed(s: State, t: State, u: UserId)
    requires !HasOpenSession(s, u)
    requires forall k :: k in t.sessions && t.sessions[k].user == u ==>
               (k in s.sessions && s.sessions[k].user == u
                && (s.sessions[k].revokedAt.Some? ==> t.sessions[k].revokedAt.Some?))
    ensures !HasOpenSession(t, u)
  {
    forall k | k in t.sessions && t.sessions[k].user == u
      ensures t.sessions[k].revokedAt.Some?
    {
      assert k in s.sessions && s.sessions[k].user == u;
    }
  }

  lemma LoginsStayElsewhere(s: State, step: Step, u: UserId)
    requires HasLeft(s, u) && !HasLoginInFlight(s, u)
    ensures !HasLoginInFlight(Apply(s, step), u)
  {
    var t := Apply(s, step);
    forall l | l in t.logins
      ensures t.logins[l] != u
    {
      assert l in s.logins ==> s.logins[l] != u;
    }
  }

  lemma SessionsStayClosed(s: State, step: Step, u: UserId)
    requires !HasOpenSession(s, u) && !HasLoginInFlight(s, u)
    ensures !HasOpenSession(Apply(s, step), u)
  {
    SameSessionsStayClosed(s, Apply(s, step), u);
  }

  lemma StepKeepsClosed(s: State, step: Step, u: UserId)
    requires Closed(s, u)
    ensures Closed(Apply(s, step), u)
  {
    StepKeepsLeft(s, step, u);
    LoginsStayElsewhere(s, step, u);
    SessionsStayClosed(s, step, u);
  }

  /** Once an account has left, no continuation lets it authenticate again. */
  lemma {:induction false} LeftCannotAuthenticate(earlier: Run, run: Run, u: UserId)
    requires Extends(earlier, run) && HasLeft(StateOf(earlier), u)
    ensures HasLeft(StateOf(run), u) && !CanAuthenticate(StateOf(run), u)
  {
    if earlier != run {
      LeftCannotAuthenticate(earlier, run.before, u);
      StepKeepsLeft(StateOf(run.before), run.step, u);
    }
  }

  lemma {:induction false} ClosedStaysClosed(earlier: Run, run: Run, u: UserId)
    requires Extends(earlier, run) && Closed(StateOf(earlier), u)
    ensures Closed(StateOf(run), u)
  {
    if earlier != run {
      ClosedStaysClosed(earlier, run.before, u);
      StepKeepsClosed(StateOf(run.before), run.step, u);
    }
  }

  predicate Leaves(step: Step, u: UserId) {
    step == Deactivate(u) || step == ConfirmDeletion(u)
  }

  lemma LeavingClosesSessions(s: State, step: Step, u: UserId)
    requires u in s.users && Leaves(step, u)
    ensures HasLeft(Apply(s, step), u) && !HasOpenSession(Apply(s, step), u)
    ensures HasLoginInFlight(Apply(s, step), u) == HasLoginInFlight(s, u)
  {
    var t := Apply(s, step);
    assert t.logins == s.logins;
  }

  /** Some continuation gives the user an open session. */
  ghost predicate CanReopen(run: Run, u: UserId) {
    exists later: Run :: Extends(run, later) && HasOpenSession(StateOf(later), u)
  }

  /** After leaving, no continuation ever lets the account authenticate; one gives it an open session
      exactly when a login of this account was past its gates at the moment of leaving. */
  lemma LeavingIsPermanent(run: Run, step: Step, u: UserId)
    requires u in StateOf(run).users && Leaves(step, u)
    ensures forall later: Run :: Extends(Then(run, step), later) ==> !CanAuthenticate(StateOf(later), u)
    ensures CanReopen(Then(run, step), u) <==> HasLoginInFlight(StateOf(run), u)
  {
    var left := Then(run, step);
    LeavingClosesSessions(StateOf(run), step, u);
    forall later: Run | Extends(left, later)
      ensures !CanAuthenticate(StateOf(later), u)
    {
      LeftCannotAuthenticate(left, later, u);
    }
    if HasLoginInFlight(StateOf(run), u) {
      var l :| l in StateOf(run).logins && StateOf(run).logins[l] == u;
      var later := Then(left, Open(l, 0));
      assert Extends(left, later.before);
      assert StateOf(later).sessions[0] == Session(u, None);
      assert HasOpenSession(StateOf(later), u);
    } else {
      forall later: Run | Extends(left, later)
        ensures !HasOpenSession(StateOf(later), u)
      {
        ClosedStaysClosed(left, later, u);
      }
    }
  }

  /** Such a login is reached from an empty store; after the account has left, it opens a session. */
  lemma LoginInFlightIsReachable(at: Time)
    ensures var registered := Then(Start(at), Register(0, User(Active, true, None)));
            var left := Then(Then(registered, Admit(1, 0)), Deactivate(0));
            && HasLoginInFlight(StateOf(left), 0) && HasLeft(StateOf(left), 0) && !HasOpenSession(StateOf(left), 0)
            && HasOpenSession(StateOf(Then(left, Open(1, 2))), 0)
  {
    var registered := Then(Start(at), Register(0, User(Active, true, None)));
    assert StateOf(registered) == State(at, map[0 := User(Active, true, None)], map[], map[], map[]);
    var admitted := Then(registered, Admit(1, 0));
    assert CanAuthenticate(StateOf(registered), 0);
    assert StateOf(admitted).logins == map[1 := 0] && 0 in StateOf(admitted).users;
    LeavingClosesSessions(StateOf(admitted), Deactivate(0), 0);
    assert StateOf(Then(admitted, Deactivate(0))) == Apply(StateOf(admitted), Deactivate(0));
    var after := StateOf(Then(Then(admitted, Deactivate(0)), Open(1, 2)));
    assert after.sessions[2] == Session(0, None);
  }

  // ---------------------------------------------------------------------------------------
  // Bans close and open an account
  // ---------------------------------------------------------------------------------------

  /** A ban that has started marks the user and closes every session; a later one changes neither. */
  lemma BanTakesEffect(s: State, id: nat, u: UserId, startsAt: Option<Time>, expiresAt: Option<Time>)
    requires Acceptable(s, id, u, startsAt, expiresAt)
    ensures var after := Apply(s, Impose(id, u, startsAt, expiresAt));
            if startsAt.None? || startsAt.value <= s.now
            then after.users[u] == s.users[u].(status := Banned) && !HasOpenSession(after, u)
                 && (HasActiveBan(after, u) <==> HasActiveBan(s, u) || expiresAt.None? || expiresAt.value > s.now)
            else after.users == s.users && after.sessions == s.sessions && HasActiveBan(after, u) == HasActiveBan(s, u)
  {
    var after := Apply(s, Impose(id, u, startsAt, expiresAt));
    if b :| b in s.bans && s.bans[b].user == u && IsActive(s.bans[b], s.now) {
      assert after.bans[b] == s.bans[b];
      assert HasActiveBan(after, u);
    }
    if startsAt.None? || startsAt.value <= s.now {
      assert after.bans[id].user == u && after.bans[id].startsAt <= after.now;
    }
    if b :| b in after.bans && after.bans[b].user == u && IsActive(after.bans[b], s.now) {
      assert b != id ==> after.bans[b] == s.bans[b];
    }
  }

  /** Revoking a ban leaves its user banned exactly when another ban of the user is active, and touches no
      status that was not BANNED. */
  lemma RevocationSettlesStatus(run: Run, id: nat)
    requires id in StateOf(run).bans && StateOf(run).bans[id].revokedAt.None?
    requires StateOf(run).bans[id].user in StateOf(run).users
    ensures var s, after := StateOf(run), StateOf(Then(run, Revoke(id)));
            var u := s.bans[id].user;
            && u in after.users
            && (s.users[u].status.Banned? ==>
                  after.users[u].status == if HasActiveBan(after, u) then Banned else Active)
            && (!s.users[u].status.Banned? ==> after.users == s.users)
            && (HasActiveBan(after, u) <==> exists b :: b in s.bans && b != id && s.bans[b].user == u && IsActive(s.bans[b], s.now))
  {
    var s, after := StateOf(run), StateOf(Then(run, Revoke(id)));
    var u := s.bans[id].user;
    assert after.bans == s.bans[id := s.bans[id].(revokedAt := Some(s.now))];
    if b :| b in s.bans && b != id && s.bans[b].user == u && IsActive(s.bans[b], s.now) {
      assert after.bans[b] == s.bans[b];
    }
    if b :| b in after.bans && after.bans[b].user == u && IsActive(after.bans[b], s.now) {
      assert b != id && after.bans[b] == s.bans[b];
    }
  }
}
