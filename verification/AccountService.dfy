/** The services and the periodic task over the stored accounts. */
module AccountService {
  import opened Common
  import opened Accounts
  import opened AccountSync
  import opened AccountLeaving
  import opened AccountAccess

  lemma MarkNone(s: State)
    ensures Marked(s, {}) == s
  {
    assert Marked(s, {}).users == s.users && Marked(s, {}).sessions == s.sessions;
  }

  lemma MarkOneMore(s: State, done: set<UserId>, u: UserId)
    requires u !in done && u in s.users
    ensures var t := Marked(s, done);
            Marked(s, done + {u}) == SessionsRevoked(t.(users := t.users[u := t.users[u].(status := Banned)]), {u}, None)
  {
    var t := Marked(s, done);
    var next := SessionsRevoked(t.(users := t.users[u := t.users[u].(status := Banned)]), {u}, None);
    assert Marked(s, done + {u}).users == next.users;
    assert Marked(s, done + {u}).sessions == next.sessions;
  }

  lemma ReleaseOneMore(s: State, done: set<UserId>, u: UserId)
    requires u !in done && u in s.users
    ensures var t := WithStatus(s, done, Active);
            WithStatus(s, done + {u}, Active) == t.(users := t.users[u := t.users[u].(status := Active)])
  {
    var t := WithStatus(s, done, Active);
    assert WithStatus(s, done + {u}, Active).users == t.users[u := t.users[u].(status := Active)];
  }

  lemma StatusesAgreeAfterSync(run: Run)
    ensures var after := StateOf(Then(run, Sync));
            forall u :: u in after.users ==> (after.users[u].status.Banned? <==> HasActiveBan(after, u))
  {
    forall u | u in StateOf(run).users {
      StatusAgreesAfterSync(run, u);
    }
  }

  class AccountStore {
    var now: Time
    var users: map<UserId, User>
    var bans: map<nat, Ban>
    var sessions: map<nat, Session>
    var logins: map<nat, UserId>
    ghost var log: Run

    function View(): State
      reads this
    {
      State(now, users, bans, sessions, logins)
    }

    ghost predicate Valid()
      reads this
    {
      View() == StateOf(log)
    }

    constructor (at: Time)
      ensures Valid() && log == Start(at)
    {
      now, users, bans, sessions, logins, log := at, map[], map[], map[], map[], Start(at);
    }

    /** SessionService.revoke_all: the open sessions are listed first and revoked one by one. */
    method RevokeAll(u: UserId, keep: Option<nat>) returns (count: nat)
      modifies `sessions
      ensures View() == SessionsRevoked(old(View()), {u}, keep) && ClosedAllBut(old(View()), View(), u, keep)
      ensures count == |set k | k in old(sessions) && old(sessions)[k].user == u && old(sessions)[k].revokedAt.None? && keep != Some(k)|
    {
      ghost var first := sessions;
      var listed := set k | k in sessions && sessions[k].user == u && sessions[k].revokedAt.None? && keep != Some(k);
      var todo := listed;
      while todo != {}
        invariant todo <= listed && sessions.Keys == first.Keys
        invariant forall k :: k in sessions ==>
                    sessions[k] == if k in listed && k !in todo then first[k].(revokedAt := Some(now)) else first[k]
        decreases todo
      {
        var k :| k in todo;
        if sessions[k].revokedAt.None? {
          sessions := sessions[k := sessions[k].(revokedAt := Some(now))];
        }
        todo := todo - {k};
      }
      count := |listed|;
    }

    /** False stands for the missing user or the refused row; then nothing has changed. */
    method Impose(id: nat, u: UserId, startsAt: Option<Time>, expiresAt: Option<Time>) returns (ok: bool)
      requires Valid() && id !in bans
      modifies this
      ensures Valid() && log == Then(old(log), Step.Impose(id, u, startsAt, expiresAt))
      ensures ok <==> u in old(users) && (expiresAt.Some? ==> expiresAt.value > if startsAt.Some? then startsAt.value else old(now))
    {
      log := Then(log, Step.Impose(id, u, startsAt, expiresAt));
      var from := if startsAt.Some? then startsAt.value else now;
      if u !in users || (expiresAt.Some? && expiresAt.value <= from) {
        return false;
      }
      ghost var banned := View().(bans := bans[id := Ban(u, from, expiresAt, None)]);
      bans := bans[id := Ban(u, from, expiresAt, None)];
      if from <= now {
        users := users[u := users[u].(status := Banned)];
        var _ := RevokeAll(u, None);
        assert users == WithStatus(banned, {u}, Banned).users;
      }
      ok := true;
    }

    method Revoke(id: nat)
      requires Valid() && id in bans && bans[id].user in users
      modifies this
      ensures Valid() && log == Then(old(log), Step.Revoke(id))
    {
      log := Then(log, Step.Revoke(id));
      if bans[id].revokedAt.Some? {
        return;
      }
      bans := bans[id := bans[id].(revokedAt := Some(now))];
      var u := bans[id].user;
      ghost var revoked := View();
      var stillBanned := exists b :: b in bans && bans[b].user == u && IsActive(bans[b], now);
      assert stillBanned == HasActiveBan(revoked, u);
      if !stillBanned && users[u].status.Banned? {
        users := users[u := users[u].(status := Active)];
        assert users == WithStatus(revoked, {u}, Active).users;
      }
    }

    /** One turn of loop 1, after the users in `done` have had theirs. */
    method MarkBanned(u: UserId, ghost first: State, ghost done: set<UserId>)
      requires u in first.users && u !in done && View() == Marked(first, done)
      modifies `users, `sessions
      ensures View() == Marked(first, done + {u})
    {
      MarkOneMore(first, done, u);
      users := users[u := users[u].(status := Banned)];
      var _ := RevokeAll(u, None);
    }

    /** The users found are marked in any order. */
    method MarkAll(found: set<UserId>) returns (activated: nat)
      requires found <= users.Keys
      modifies `users, `sessions
      ensures View() == Marked(old(View()), found)
      ensures activated == |found|
    {
      ghost var first := View();
      var done: set<UserId> := {};
      activated := 0;
      MarkNone(first);
      while found - done != {}
        invariant done <= found
        invariant View() == Marked(first, done)
        invariant activated == |done|
        decreases found - done
      {
        var u :| u in found - done;
        MarkBanned(u, first, done);
        done, activated := done + {u}, activated + 1;
      }
      assert done == found;
    }

    /** Loop 1: the users that both filters find. */
    method ActivateBans() returns (activated: nat)
      modifies `users, `sessions
      ensures View() == Marked(old(View()), ToBan(old(View())))
      ensures activated == |ToBan(old(View()))|
    {
      activated := MarkAll(ToBan(View()));
    }

    /** The users found are rechecked when their turn comes, in any order. */
    method ReleaseAll(found: set<UserId>) returns (updated: nat)
      requires found <= users.Keys
      modifies `users
      ensures View() == WithStatus(old(View()), (set u | u in found && !HasActiveBan(old(View()), u)), Active)
      ensures updated == |set u | u in found && !HasActiveBan(old(View()), u)|
    {
      ghost var first, released: set<UserId> := View(), {};
      var done: set<UserId> := {};
      updated := 0;
      assert WithStatus(first, {}, Active).users == first.users;
      while found - done != {}
        invariant done <= found && View() == WithStatus(first, released, Active)
        invariant forall u :: u in released <==> u in done && !HasActiveBan(first, u)
        invariant updated == |released|
        decreases found - done
      {
        var u :| u in found - done;
        SameBansSameAnswers(first, View(), u);
        if !HasActiveBan(View(), u) {
          ReleaseOneMore(first, released, u);
          users := users[u := users[u].(status := Active)];
          released, updated := released + {u}, updated + 1;
        }
        done := done + {u};
      }
      assert done == found;
      assert released == set u | u in found && !HasActiveBan(first, u);
    }

    /** Loop 2: the banned users with a ban that has run out. */
    method ReleaseLapsed() returns (updated: nat)
      modifies `users
      ensures View() == WithStatus(old(View()), ToRelease(old(View())), Active)
      ensures updated == |ToRelease(old(View()))|
    {
      ghost var first := View();
      var found := set u | u in users && users[u].status.Banned? && SomeRunOut(View(), u);
      updated := ReleaseAll(found);
      assert ToRelease(first) == set u | u in found && !HasActiveBan(first, u);
    }

    /** Both loops, one after the other. */
    method Synchronise() returns (count: nat)
      modifies `users, `sessions
      ensures View() == Synced(old(View())) && count == SyncCount(old(View()))
    {
      var activated := ActivateBans();
      var updated := ReleaseLapsed();
      count := updated + activated;
    }

    method ExpireTemporaryBans() returns (count: nat)
      requires Valid()
      modifies this
      ensures Valid() && log == Then(old(log), Sync)
      ensures count == |NewlyBanned(old(View()))| + |Lapsed(old(View()))| + 2 * |FlippedBack(old(View()))|
      ensures forall u :: u in users ==> (users[u].status.Banned? <==> HasActiveBan(View(), u))
    {
      CountIsExact(View());
      StatusesAgreeAfterSync(log);
      log := Then(log, Sync);
      count := Synchronise();
    }

    method VerifyEmail(u: UserId)
      requires Valid() && u in users
      modifies this
      ensures Valid() && log == Then(old(log), Step.VerifyEmail(u))
      ensures users == old(users)[u := users[u]] && users[u].isActive == old(users)[u].isActive
      ensures users[u].emailVerifiedAt == if old(users)[u].emailVerifiedAt.Some? then old(users)[u].emailVerifiedAt else Some(now)
      ensures users[u].status
           == if old(users)[u].emailVerifiedAt.None? && old(users)[u].status == Pending then Active else old(users)[u].status
    {
      log := Then(log, Step.VerifyEmail(u));
      if users[u].emailVerifiedAt.None? {
        users := users[u := users[u].(emailVerifiedAt := Some(now))];
        if users[u].status.Pending? {
          users := users[u := users[u].(status := Active)];
        }
      }
    }

    method Deactivate(u: UserId)
      requires Valid() && u in users
      modifies this
      ensures Valid() && log == Then(old(log), Step.Deactivate(u))
      ensures HasLeft(View(), u) && !HasOpenSession(View(), u)
    {
      LeavingClosesSessions(View(), Step.Deactivate(u), u);
      log := Then(log, Step.Deactivate(u));
      users := users[u := users[u].(status := Deactivated, isActive := false)];
      var _ := RevokeAll(u, None);
    }

    method ConfirmDeletion(u: UserId)
      requires Valid() && u in users
      modifies this
      ensures Valid() && log == Then(old(log), Step.ConfirmDeletion(u))
      ensures HasLeft(View(), u) && !HasOpenSession(View(), u)
    {
      LeavingClosesSessions(View(), Step.ConfirmDeletion(u), u);
      log := Then(log, Step.ConfirmDeletion(u));
      users := users[u := users[u].(status := Deleted, isActive := false, emailVerifiedAt := None)];
      var _ := RevokeAll(u, None);
    }
  }
}
