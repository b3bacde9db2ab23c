/**
 The synchroniser as it is executed: no transaction is around it, so other transactions commit between its
 queries and its saves. Each user is saved from what the lists said, whatever has happened since.
 */
module AccountInterleaving {
  import opened Common
  import opened Accounts
  import opened AccountLeaving
  import opened AccountAccess

  /** Where the running pass is. `at` is the instant that it read when it began; `cleared` is the user that has
      been rechecked and is about to be saved. */
  datatype Pass =
    | Idle
    | Marking(at: Time, todo: set<UserId>)
    | Releasing(at: Time, todo: set<UserId>, cleared: Option<UserId>)

  datatype World = World(store: State, pass: Pass)

  /** `Serve` is a transaction of anybody else. */
  datatype Move =
    | Serve(step: Step)
    | ListUsers
    | Mark(user: UserId)
    | ListLapsed
    | Recheck(user: UserId)
    | Save
    | Finish

  datatype Trace = Begin(at: Time) | Next(before: Trace, move: Move)

  /** The rows as the conditions of a pass that began at `at` see them. */
  function Seen(s: State, at: Time): State {
    s.(now := at)
  }

  function Marks(w: World, u: UserId): World
    requires w.pass.Marking?
  {
    World(Marked(w.store, {u}), Marking(w.pass.at, w.pass.todo - {u}))
  }

  function Lapsing(s: State): set<UserId> {
    set u | u in s.users && s.users[u].status.Banned? && SomeRunOut(s, u)
  }

  function Apply(w: World, move: Move): World {
    match move
    case Serve(step) => w.(store := Accounts.Apply(w.store, step))
    case ListUsers =>
      if w.pass.Idle? then w.(pass := Marking(w.store.now, ToBan(w.store))) else w
    case Mark(u) =>
      if w.pass.Marking? && u in w.pass.todo then Marks(w, u) else w
    case ListLapsed =>
      if w.pass.Marking? && w.pass.todo == {}
      then w.(pass := Releasing(w.pass.at, Lapsing(Seen(w.store, w.pass.at)), None)) else w
    case Recheck(u) =>
      if w.pass.Releasing? && u in w.pass.todo && w.pass.cleared.None?
      then w.(pass := Releasing(w.pass.at, w.pass.todo - {u},
                                if HasActiveBan(Seen(w.store, w.pass.at), u) then None else Some(u)))
      else w
    case Save =>
      if w.pass.Releasing? && w.pass.cleared.Some?
      then World(WithStatus(w.store, {w.pass.cleared.value}, Active), Releasing(w.pass.at, w.pass.todo, None)) else w
    case Finish =>
      if w.pass.Releasing? && w.pass.todo == {} && w.pass.cleared.None? then w.(pass := Idle) else w
  }

  function WorldOf(trace: Trace): World {
    match trace
    case Begin(at) => World(State(at, map[], map[], map[], map[]), Idle)
    case Next(before, move) => Apply(WorldOf(before), move)
  }

  predicate Continues(earlier: Trace, trace: Trace) {
    earlier == trace || (trace.Next? && Continues(earlier, trace.before))
  }

  /** What the moves of a pass do to the rows: a mark makes its user BANNED and closes the sessions of that user, a
      save makes the rechecked user ACTIVE, and nothing else changes. */
  lemma MovesOfAPass(w: World, move: Move, u: UserId)
    requires !move.Serve? && u in w.store.users
    ensures var s, t := w.store, Apply(w, move).store;
            var marked := move.Mark? && w.pass.Marking? && move.user in w.pass.todo;
            var saved := move.Save? && w.pass.Releasing? && w.pass.cleared.Some?;
            && t.users.Keys == s.users.Keys && t.bans == s.bans && t.logins == s.logins && t.now == s.now
            && t.users[u]
               == (if marked && u == move.user then s.users[u].(status := Banned)
                  else if saved && w.pass.cleared == Some(u) then s.users[u].(status := Active)
                  else s.users[u])
            && (if marked then ClosedAllBut(s, t, move.user, None) else t.sessions == s.sessions)
  {
  }

  // ---------------------------------------------------------------------------------------
  // When a mark is wrong
  // ---------------------------------------------------------------------------------------

  /** By the time that the listed user is saved, none of its bans is in force any more. */
  predicate Overtaken(w: World, move: Move) {
    move.Mark? && w.pass.Marking? && move.user in w.pass.todo && !SomeInForce(w.store, move.user)
  }

  predicate NeverOvertaken(trace: Trace) {
    trace.Next? ==> NeverOvertaken(trace.before) && !Overtaken(WorldOf(trace.before), trace.move)
  }

  predicate AlwaysHasBan(trace: Trace) {
    BannedHasBan(WorldOf(trace).store) && (trace.Next? ==> AlwaysHasBan(trace.before))
  }

  predicate ListedAreUsers(w: World) {
    (w.pass.Marking? || w.pass.Releasing?) ==> w.pass.todo <= w.store.users.Keys
  }

  lemma StepKeepsUsers(s: State, step: Step)
    ensures s.users.Keys <= Accounts.Apply(s, step).users.Keys
  {
  }

  lemma {:induction false} ListsNameUsers(trace: Trace)
    ensures ListedAreUsers(WorldOf(trace))
  {
    if trace.Next? {
      ListsNameUsers(trace.before);
      if trace.move.Serve? {
        StepKeepsUsers(WorldOf(trace.before).store, trace.move.step);
      }
    }
  }

  lemma MarkIsRightIff(s: State, u: UserId)
    requires BannedHasBan(s) && u in s.users
    ensures BannedHasBan(Marked(s, {u})) <==> SomeInForce(s, u)
  {
    var after := Marked(s, {u});
    forall v
      ensures SomeInForce(after, v) == SomeInForce(s, v)
    {
      SameBansSameAnswers(s, after, v);
    }
    assert after.users[u].status.Banned?;
  }

  lemma SaveKeepsBannedHasBan(s: State, u: UserId)
    requires BannedHasBan(s)
    ensures BannedHasBan(WithStatus(s, {u}, Active))
  {
    forall v {
      SameBansSameAnswers(s, WithStatus(s, {u}, Active), v);
    }
  }

  lemma MoveKeepsBannedHasBanIff(w: World, move: Move)
    requires BannedHasBan(w.store) && ListedAreUsers(w)
    ensures BannedHasBan(Apply(w, move).store) <==> !Overtaken(w, move)
  {
    match move
    case Serve(step) => StepKeepsBannedHasBan(w.store, step);
    case Mark(u) =>
      if w.pass.Marking? && u in w.pass.todo {
        MarkIsRightIff(w.store, u);
      }
    case Save =>
      if w.pass.Releasing? && w.pass.cleared.Some? {
        SaveKeepsBannedHasBan(w.store, w.pass.cleared.value);
      }
    case _ =>
  }

  /** All along a trace every BANNED user has an unrevoked ban that has started, exactly when no mark of the
      synchroniser was overtaken by the revocation of every such ban of its user. */
  lemma {:induction false} BannedHasBanIffNeverOvertaken(trace: Trace)
    ensures AlwaysHasBan(trace) <==> NeverOvertaken(trace)
  {
    if trace.Next? {
      BannedHasBanIffNeverOvertaken(trace.before);
      ListsNameUsers(trace.before);
      if AlwaysHasBan(trace.before) {
        MoveKeepsBannedHasBanIff(WorldOf(trace.before), trace.move);
      }
    }
  }

  /** A ban of the user has been revoked since the running pass listed its users. */
  predicate RevokedInPass(trace: Trace, u: UserId) {
    trace.Next?
    && var s := WorldOf(trace.before).store;
       if trace.move.ListUsers? && WorldOf(trace.before).pass.Idle? then false
       else
         || RevokedInPass(trace.before, u)
         || (trace.move.Serve? && trace.move.step.Revoke? && trace.move.step.ban in s.bans
             && s.bans[trace.move.step.ban].user == u && s.bans[trace.move.step.ban].revokedAt.None?)
  }

  lemma ServedKeepsInForce(s: State, step: Step, u: UserId)
    requires SomeInForce(s, u)
    requires step.Revoke? && step.ban in s.bans && s.bans[step.ban].user == u ==> s.bans[step.ban].revokedAt.Some?
    ensures SomeInForce(Accounts.Apply(s, step), u)
  {
    var b :| b in s.bans && s.bans[b].user == u && InForce(s.bans[b], s.now);
    var t := Accounts.Apply(s, step);
    assert b in t.bans && t.bans[b] == s.bans[b] && s.now <= t.now;
  }

  lemma MoveKeepsInForce(w: World, move: Move, u: UserId)
    requires SomeInForce(w.store, u) && !move.Serve?
    ensures SomeInForce(Apply(w, move).store, u)
  {
    SameBansSameAnswers(w.store, Apply(w, move).store, u);
  }

  /** Until it is marked, a listed user keeps a ban in force unless one of its bans has been revoked in this
      pass: nothing else overtakes a mark. */
  lemma {:induction false} OnlyRevocationOvertakes(trace: Trace, u: UserId)
    requires WorldOf(trace).pass.Marking? && u in WorldOf(trace).pass.todo
    ensures SomeInForce(WorldOf(trace).store, u) || RevokedInPass(trace, u)
    ensures Overtaken(WorldOf(trace), Mark(u)) ==> RevokedInPass(trace, u)
  {
    var w := WorldOf(trace.before);
    if w.pass.Marking? {
      OnlyRevocationOvertakes(trace.before, u);
      if SomeInForce(w.store, u) && !RevokedInPass(trace, u) {
        if trace.move.Serve? {
          ServedKeepsInForce(w.store, trace.move.step, u);
        } else {
          MoveKeepsInForce(w, trace.move, u);
        }
      }
    }
  }

  // ---------------------------------------------------------------------------------------
  // Stranded users
  // ---------------------------------------------------------------------------------------

  predicate AllRevoked(s: State, u: UserId) {
    forall b :: b in s.bans && s.bans[b].user == u ==> s.bans[b].revokedAt.Some?
  }

  /** BANNED without any ban that could lapse, and not in the hands of a pass that would still release it. */
  predicate Stranded(w: World, u: UserId) {
    && u in w.store.users && w.store.users[u].status.Banned? && AllRevoked(w.store, u)
    && (w.pass.Releasing? ==> u !in w.pass.todo && w.pass.cleared != Some(u))
  }

  /** Somebody bans the user again, or the user leaves: only this changes the status of a stranded user. */
  predicate Aids(move: Move, u: UserId) {
    move.Serve? && (Leaves(move.step, u) || (move.step.Impose? && move.step.user == u))
  }

  predicate Unaided(earlier: Trace, trace: Trace, u: UserId) {
    earlier == trace || (trace.Next? && Unaided(earlier, trace.before, u) && !Aids(trace.move, u))
  }

  /** A mark strands its user exactly when every ban of the user has been revoked by then. */
  lemma MarkStrandsIff(w: World, u: UserId)
    requires w.pass.Marking? && u in w.pass.todo && u in w.store.users
    ensures Stranded(Apply(w, Mark(u)), u) <==> AllRevoked(w.store, u)
  {
  }

  lemma ServedStaysStranded(s: State, step: Step, u: UserId)
    requires u in s.users && s.users[u].status.Banned? && AllRevoked(s, u) && !Aids(Serve(step), u)
    ensures var t := Accounts.Apply(s, step); u in t.users && t.users[u].status.Banned? && AllRevoked(t, u)
  {
  }

  lemma MoveStaysStranded(w: World, move: Move, u: UserId)
    requires Stranded(w, u) && !Aids(move, u)
    ensures Stranded(Apply(w, move), u)
  {
    if move.Serve? {
      ServedStaysStranded(w.store, move.step, u);
    }
  }

  /** No continuation releases a stranded user, however many synchronisations it holds, unless somebody bans
      the user again or the user leaves; all the time no ban of the user is active, and the account stays shut. */
  lemma {:induction false} StrandedForGood(earlier: Trace, trace: Trace, u: UserId)
    requires Unaided(earlier, trace, u) && Stranded(WorldOf(earlier), u)
    ensures Stranded(WorldOf(trace), u)
    ensures !HasActiveBan(WorldOf(trace).store, u) && !CanAuthenticate(WorldOf(trace).store, u)
  {
    if earlier != trace {
      StrandedForGood(earlier, trace.before, u);
      MoveStaysStranded(WorldOf(trace.before), trace.move, u);
    }
  }

  /** A ban that is revoked between the list and the save. */
  function StrandingTrace(at: Time): Trace {
    var registered := Next(Begin(at), Serve(Register(0, User(Active, true, None))));
    var banned := Next(registered, Serve(Impose(1, 0, Some(at + 1), None)));
    var listed := Next(Next(banned, Serve(Tick(at + 1))), ListUsers);
    Next(Next(listed, Serve(Revoke(1))), Mark(0))
  }

  lemma StrandingIsReachable(at: Time)
    ensures Stranded(WorldOf(StrandingTrace(at)), 0)
    ensures !NeverOvertaken(StrandingTrace(at))
  {
    var revoked := StrandingTrace(at).before;
    var listed := revoked.before;
    var due := listed.before;
    var ban := Ban(0, at + 1, None, None);
    assert WorldOf(due.before.before) == World(State(at, map[0 := User(Active, true, None)], map[], map[], map[]), Idle);
    assert WorldOf(due.before).store.bans == map[1 := ban] && WorldOf(due.before).store.now == at;
    var s := WorldOf(due).store;
    assert s.users == map[0 := User(Active, true, None)] && s.bans == map[1 := ban] && s.now == at + 1;
    assert InForce(s.bans[1], s.now) && Unexpired(s.bans[1], s.now);
    assert ToBan(s) == {0};
    assert WorldOf(listed) == World(s, Marking(at + 1, {0}));
    var t := WorldOf(revoked).store;
    assert t == Accounts.Apply(s, Revoke(1));
    assert t.bans == map[1 := ban.(revokedAt := Some(at + 1))] && 0 in t.users;
    MarkStrandsIff(WorldOf(revoked), 0);
    assert Overtaken(WorldOf(revoked), Mark(0));
  }

  // ---------------------------------------------------------------------------------------
  // Users that nobody else touches during a pass
  // ---------------------------------------------------------------------------------------

  /** The move may change the status or the bans of the user, other than on behalf of the pass. */
  predicate Touches(s: State, move: Move, u: UserId) {
    match move
    case Serve(Impose(_, v, _, _)) => v == u
    case Serve(Revoke(b)) => b in s.bans && s.bans[b].user == u
    case Serve(VerifyEmail(v)) => v == u
    case Serve(Deactivate(v)) => v == u
    case Serve(ConfirmDeletion(v)) => v == u
    case Serve(Sync) => true
    case _ => false
  }

  /** `trace` continues `listed` within one pass and touches nothing of `u`. */
  predicate Untouched(listed: Trace, trace: Trace, u: UserId) {
    || listed == trace
    || (trace.Next? && Untouched(listed, trace.before, u) && !trace.move.ListUsers?
        && !Touches(WorldOf(trace.before).store, trace.move, u))
  }

  predicate SameBans(s: State, t: State, u: UserId) {
    && (forall b :: b in s.bans && s.bans[b].user == u ==> b in t.bans && t.bans[b] == s.bans[b])
    && (forall b :: b in t.bans && t.bans[b].user == u ==> b in s.bans && t.bans[b] == s.bans[b])
  }

  lemma SameBansSameVerdicts(s: State, t: State, u: UserId)
    requires SameBans(s, t, u)
    ensures var seen := Seen(t, s.now);
            && SomeRunOut(seen, u) == SomeRunOut(s, u) && HasActiveBan(seen, u) == HasActiveBan(s, u)
  {
    var seen := Seen(t, s.now);
    if b :| b in s.bans && s.bans[b].user == u && s.bans[b].revokedAt.None? && !Unexpired(s.bans[b], s.now) {
      assert seen.bans[b] == s.bans[b];
    }
    if b :| b in s.bans && s.bans[b].user == u && IsActive(s.bans[b], s.now) {
      assert seen.bans[b] == s.bans[b];
    }
  }

  /** The status after loop 1, and after loop 2, of a user that was in `s` when the pass began. */
  function AfterMarking(s: State, u: UserId): Status
    requires u in s.users
  {
    if u in ToBan(s) then Banned else s.users[u].status
  }

  function AfterReleasing(s: State, u: UserId): Status
    requires u in s.users
  {
    if AfterMarking(s, u).Banned? && SomeRunOut(s, u) && !HasActiveBan(s, u) then Active else AfterMarking(s, u)
  }

  /** What the progress of the pass says about the status of an untouched user. */
  predicate OnItsWay(s: State, w: World, u: UserId)
    requires u in s.users
  {
    && u in w.store.users && SameBans(s, w.store, u)
    && var status := w.store.users[u].status;
       match w.pass
       case Marking(at, todo) =>
         at == s.now && (if u in todo then u in ToBan(s) && status == s.users[u].status else status == AfterMarking(s, u))
       case Releasing(at, todo, cleared) =>
         && at == s.now && (cleared == Some(u) ==> u !in todo)
         && (if u in todo || cleared == Some(u)
             then status == AfterMarking(s, u) && status.Banned? && SomeRunOut(s, u) && (u !in todo ==> !HasActiveBan(s, u))
             else status == AfterReleasing(s, u))
       case Idle => status == AfterReleasing(s, u)
  }

  lemma BansElsewhere(t: State, step: Step, u: UserId)
    requires !Touches(t, Serve(step), u)
    ensures SameBans(t, Accounts.Apply(t, step), u)
  {
    if !step.Impose? && !step.Revoke? {
      assert Accounts.Apply(t, step).bans == t.bans;
    }
  }

  lemma StatusElsewhere(t: State, step: Step, u: UserId)
    requires u in t.users && !Touches(t, Serve(step), u)
    ensures u in Accounts.Apply(t, step).users && Accounts.Apply(t, step).users[u].status == t.users[u].status
  {
  }

  lemma ServedElsewhere(t: State, step: Step, u: UserId)
    requires u in t.users && !Touches(t, Serve(step), u)
    ensures var after := Accounts.Apply(t, step);
            u in after.users && after.users[u].status == t.users[u].status && SameBans(t, after, u)
  {
    BansElsewhere(t, step, u);
    StatusElsewhere(t, step, u);
  }

  lemma SameBansCarryOver(s: State, t: State, after: State, u: UserId)
    requires SameBans(s, t, u) && SameBans(t, after, u)
    ensures SameBans(s, after, u)
  {
  }

  lemma ServedKeepsOnItsWay(s: State, w: World, step: Step, u: UserId)
    requires u in s.users && OnItsWay(s, w, u) && !Touches(w.store, Serve(step), u)
    ensures OnItsWay(s, Apply(w, Serve(step)), u)
  {
    ServedElsewhere(w.store, step, u);
    SameBansCarryOver(s, w.store, Accounts.Apply(w.store, step), u);
  }

  lemma MarkKeepsOnItsWay(s: State, w: World, v: UserId, u: UserId)
    requires u in s.users && OnItsWay(s, w, u)
    ensures OnItsWay(s, Apply(w, Mark(v)), u)
  {
    assert Marked(w.store, {v}).bans == w.store.bans;
  }

  lemma SaveKeepsOnItsWay(s: State, w: World, u: UserId)
    requires u in s.users && OnItsWay(s, w, u)
    ensures OnItsWay(s, Apply(w, Save), u)
  {
    if w.pass.Releasing? && w.pass.cleared.Some? {
      var after := Apply(w, Save);
      assert after.store.bans == w.store.bans;
      assert after.store.users[u].status == if w.pass.cleared == Some(u) then Active else w.store.users[u].status;
    }
  }

  lemma MoveKeepsOnItsWay(s: State, w: World, move: Move, u: UserId)
    requires u in s.users && OnItsWay(s, w, u) && !Touches(w.store, move, u) && !move.ListUsers?
    ensures OnItsWay(s, Apply(w, move), u)
  {
    SameBansSameVerdicts(s, w.store, u);
    match move
    case Serve(step) => ServedKeepsOnItsWay(s, w, step, u);
    case Mark(v) => MarkKeepsOnItsWay(s, w, v, u);
    case Save => SaveKeepsOnItsWay(s, w, u);
    case _ =>
  }

  lemma {:induction false} UntouchedIsOnItsWay(listed: Trace, trace: Trace, u: UserId)
    requires listed.Next? && listed.move.ListUsers? && WorldOf(listed.before).pass.Idle?
    requires u in WorldOf(listed.before).store.users && Untouched(listed, trace, u)
    ensures OnItsWay(WorldOf(listed.before).store, WorldOf(trace), u)
  {
    if listed != trace {
      UntouchedIsOnItsWay(listed, trace.before, u);
      MoveKeepsOnItsWay(WorldOf(listed.before).store, WorldOf(trace.before), trace.move, u);
    }
  }

  /** The two loops in one step come to the same status. */
  lemma SyncedIsAfterReleasing(s: State, u: UserId)
    requires u in s.users
    ensures u in Synced(s).users && Synced(s).users[u].status == AfterReleasing(s, u)
  {
    SyncDecides(s, u);
    ActiveBanMeetsBothFilters(s, u);
  }

  /** In every interleaving, a pass that finishes gives a user who was not touched meanwhile the status that a
      synchronisation in one step would have given. */
  lemma UntouchedUserIsSynced(listed: Trace, trace: Trace, u: UserId)
    requires listed.Next? && listed.move.ListUsers? && WorldOf(listed.before).pass.Idle?
    requires u in WorldOf(listed.before).store.users && Untouched(listed, trace, u) && WorldOf(trace).pass.Idle?
    ensures var s, t := WorldOf(listed.before).store, WorldOf(trace).store;
            u in t.users && u in Synced(s).users && t.users[u].status == Synced(s).users[u].status
  {
    UntouchedIsOnItsWay(listed, trace, u);
    SyncedIsAfterReleasing(WorldOf(listed.before).store, u);
  }

  /** Such a user ends the pass BANNED just when one single ban was active at its beginning, exactly if the
      user was not BANNED then without either such a ban or an unrevoked one that had run out. */
  lemma UntouchedUserAgreesIff(listed: Trace, trace: Trace, u: UserId)
    requires listed.Next? && listed.move.ListUsers? && WorldOf(listed.before).pass.Idle?
    requires u in WorldOf(listed.before).store.users && Untouched(listed, trace, u) && WorldOf(trace).pass.Idle?
    ensures var s, t := WorldOf(listed.before).store, WorldOf(trace).store;
            u in t.users
            && ((t.users[u].status.Banned? <==> HasActiveBan(Seen(t, s.now), u))
                <==> (s.users[u].status.Banned? ==> HasActiveBan(s, u) || SomeRunOut(s, u)))
  {
    var s := WorldOf(listed.before).store;
    UntouchedIsOnItsWay(listed, trace, u);
    UntouchedUserIsSynced(listed, trace, u);
    SyncAgreesIff(s, u);
    SameBansSameVerdicts(s, WorldOf(trace).store, u);
  }

  /** In particular it does so for every user who was not BANNED, or had an unrevoked ban that had started. */
  lemma UntouchedUserAgrees(listed: Trace, trace: Trace, u: UserId)
    requires listed.Next? && listed.move.ListUsers? && WorldOf(listed.before).pass.Idle?
    requires u in WorldOf(listed.before).store.users && Untouched(listed, trace, u) && WorldOf(trace).pass.Idle?
    requires WorldOf(listed.before).store.users[u].status.Banned? ==> SomeInForce(WorldOf(listed.before).store, u)
    ensures var began, t := WorldOf(listed.before).store.now, WorldOf(trace).store;
            u in t.users && (t.users[u].status.Banned? <==> HasActiveBan(Seen(t, began), u))
  {
    UntouchedUserAgreesIff(listed, trace, u);
    ActiveBanMeetsBothFilters(WorldOf(listed.before).store, u);
  }
}
