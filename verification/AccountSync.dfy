/** What a synchronisation counts, when it is idempotent, and what its chained filters do beyond that. */
module AccountSync {
  import opened Common
  import opened Accounts

  /** Both conditions of loop 1 hold, but of different bans: no ban of this user is active. */
  predicate Confused(s: State, u: UserId) {
    SomeInForce(s, u) && SomeUnexpired(s, u) && !HasActiveBan(s, u)
  }

  function ConfusedUsers(s: State): set<UserId> {
    set u | u in s.users && Confused(s, u)
  }

  /** Banned by loop 1 and set back by loop 2 of the same synchronisation. */
  function FlippedBack(s: State): set<UserId> {
    set u | u in s.users && Confused(s, u) && !s.users[u].status.Banned?
  }

  function NewlyBanned(s: State): set<UserId> {
    set u | u in s.users && HasActiveBan(s, u) && !s.users[u].status.Banned?
  }

  /** Marked as banned, with an unrevoked ban that has run out and none that is active. */
  function Lapsed(s: State): set<UserId> {
    set u | u in s.users && !HasActiveBan(s, u) && SomeRunOut(s, u) && s.users[u].status.Banned?
  }

  function Changed(s: State, t: State): set<UserId> {
    set u | u in s.users && u in t.users && s.users[u].status != t.users[u].status
  }

  /** The number that the task returns. */
  function SyncCount(s: State): nat {
    |ToBan(s)| + |ToRelease(Marked(s, ToBan(s)))|
  }

  /** Exactly who is banned by loop 1 and who is released by loop 2. */
  lemma LoopsSelect(s: State)
    ensures ToBan(s) == NewlyBanned(s) + FlippedBack(s)
    ensures ToRelease(Marked(s, ToBan(s))) == Lapsed(s) + FlippedBack(s)
  {
    var marked := Marked(s, ToBan(s));
    forall u | u in s.users
      ensures u in ToBan(s) <==> u in NewlyBanned(s) + FlippedBack(s)
      ensures u in ToRelease(marked) <==> u in Lapsed(s) + FlippedBack(s)
    {
      ActiveBanMeetsBothFilters(s, u);
      SameBansSameAnswers(s, marked, u);
    }
  }

  lemma DisjointCount<T>(a: set<T>, b: set<T>)
    requires a !! b
    ensures |a + b| == |a| + |b|
  {
  }

  /** The count adds every user whose ban began or lapsed, and counts the flipped-back ones twice. */
  lemma CountIsExact(s: State)
    ensures SyncCount(s) == |NewlyBanned(s)| + |Lapsed(s)| + 2 * |FlippedBack(s)|
  {
    LoopsSelect(s);
    DisjointCount(NewlyBanned(s), FlippedBack(s));
    DisjointCount(Lapsed(s), FlippedBack(s));
  }

  lemma ChangedUsers(s: State)
    ensures Changed(s, Synced(s))
         == NewlyBanned(s) + Lapsed(s) + set u | u in FlippedBack(s) && !s.users[u].status.Active?
  {
    forall u | u in s.users
      ensures u in Changed(s, Synced(s))
         <==> u in NewlyBanned(s) || u in Lapsed(s) || (u in FlippedBack(s) && !s.users[u].status.Active?)
    {
      SyncDecides(s, u);
      ActiveBanMeetsBothFilters(s, u);
    }
  }

  lemma SubsetCount<T>(a: set<T>, b: set<T>)
    requires a <= b
    ensures |a| <= |b|
  {
    DisjointCount(a, b - a);
    assert a + (b - a) == b;
  }

  lemma CountOfThree<T>(a: set<T>, b: set<T>, c: set<T>)
    requires a !! b && a !! c && b !! c
    ensures |a + b + c| == |a| + |b| + |c|
  {
    DisjointCount(a, b);
    DisjointCount(a + b, c);
  }

  /** The count is the number of users whose status changed exactly when nobody is flipped back. */
  lemma CountIsChangesIff(s: State)
    ensures SyncCount(s) == |Changed(s, Synced(s))| <==> FlippedBack(s) == {}
  {
    var flipped := set u | u in FlippedBack(s) && !s.users[u].status.Active?;
    CountIsExact(s);
    ChangedUsers(s);
    CountOfThree(NewlyBanned(s), Lapsed(s), flipped);
    SubsetCount(flipped, FlippedBack(s));
  }

  lemma SecondSyncSelects(s: State)
    ensures NewlyBanned(Synced(s)) == {} && Lapsed(Synced(s)) == {}
    ensures FlippedBack(Synced(s)) == ConfusedUsers(s)
  {
    forall u | u in s.users
      ensures u !in NewlyBanned(Synced(s)) && u !in Lapsed(Synced(s))
      ensures u in FlippedBack(Synced(s)) <==> u in ConfusedUsers(s)
    {
      SyncDecides(s, u);
      SameBansSameAnswers(s, Synced(s), u);
    }
  }

  /** A second synchronisation at the same instant counts the confused users, whatever their status was,
      twice each: it returns 0 exactly when there is none. */
  lemma SecondSyncCount(s: State)
    ensures SyncCount(Synced(s)) == 2 * |ConfusedUsers(s)|
    ensures SyncCount(Synced(s)) == 0 <==> ConfusedUsers(s) == {}
  {
    SecondSyncSelects(s);
    CountIsExact(Synced(s));
  }

  /** Exactly the open sessions of the newly banned and of the flipped-back users are revoked. */
  lemma SyncClosesSessions(s: State, k: nat)
    requires k in s.sessions
    ensures k in Synced(s).sessions
    ensures Synced(s).sessions[k]
         == if s.sessions[k].user in NewlyBanned(s) + FlippedBack(s) && s.sessions[k].revokedAt.None?
            then s.sessions[k].(revokedAt := Some(s.now)) else s.sessions[k]
  {
    LoopsSelect(s);
  }

  /** An open session of a banned user who is confused. */
  predicate OpenForConfused(s: State, session: Session) {
    session.revokedAt.None? && session.user in Lapsed(s) && Confused(s, session.user)
  }

  lemma SameStateIff(s: State, t: State)
    requires s.now == t.now && s.users == t.users && s.bans == t.bans && s.logins == t.logins
    ensures s == t <==> s.sessions == t.sessions
  {
  }

  lemma StatusSettles(s: State, u: UserId)
    requires u in s.users
    ensures u in Synced(Synced(s)).users && u in Synced(s).users
    ensures Synced(Synced(s)).users[u] == Synced(s).users[u]
  {
    SyncDecides(s, u);
    SyncDecides(Synced(s), u);
    SameBansSameAnswers(s, Synced(s), u);
  }

  lemma StatusesSettle(s: State)
    ensures Synced(Synced(s)).users == Synced(s).users
  {
    forall u | u in s.users
      ensures u in Synced(s).users && Synced(Synced(s)).users[u] == Synced(s).users[u]
    {
      StatusSettles(s, u);
    }
  }

  /** What a second synchronisation does to a session. */
  lemma SecondSyncCloses(s: State, k: nat)
    requires k in s.sessions
    ensures k in Synced(s).sessions && k in Synced(Synced(s)).sessions
    ensures var was, once, twice := s.sessions[k], Synced(s).sessions[k], Synced(Synced(s)).sessions[k];
            twice == if OpenForConfused(s, was) then once.(revokedAt := Some(s.now)) else once
    ensures s.sessions[k].user in Lapsed(s) && s.sessions[k].revokedAt.None? ==> Synced(s).sessions[k].revokedAt.None?
  {
    SecondSyncSelects(s);
    SyncClosesSessions(s, k);
    SyncClosesSessions(Synced(s), k);
  }

  lemma SessionsSettleIff(s: State)
    ensures Synced(Synced(s)).sessions == Synced(s).sessions
       <==> forall k :: k in s.sessions ==> !OpenForConfused(s, s.sessions[k])
  {
    var once, twice := Synced(s).sessions, Synced(Synced(s)).sessions;
    assert once.Keys == s.sessions.Keys == twice.Keys;
    forall k | k in s.sessions
      ensures twice[k] == once[k] <==> !OpenForConfused(s, s.sessions[k])
    {
      SecondSyncCloses(s, k);
    }
  }

  /** A second synchronisation at the same instant changes nothing exactly when no banned but confused user
      had an open session: the others' sessions were closed by the first one, and every status has settled. */
  lemma SyncIsIdempotentIff(s: State)
    ensures Synced(Synced(s)) == Synced(s) <==> forall k :: k in s.sessions ==> !OpenForConfused(s, s.sessions[k])
  {
    StatusesSettle(s);
    SessionsSettleIff(s);
    SameStateIff(Synced(Synced(s)), Synced(s));
  }

  /** One user, with these bans, whose e-mail was never verified. */
  predicate OneUser(s: State, at: Time, bans: map<nat, Ban>) {
    s.now == at && s.bans == bans && s.users.Keys == {0} && s.users[0].emailVerifiedAt.None?
  }

  function TwiceBanned(at: Time): Run {
    var registered := Then(Start(at), Register(0, User(Pending, true, None)));
    Then(Then(registered, Impose(1, 0, None, Some(at + 1))), Impose(2, 0, None, None))
  }

  /** A deactivated user whose own ban has run out, beside a revoked permanent one, is confused, and comes
      out of the synchronisation with status ACTIVE and a count of two. */
  function ConfusedRun(at: Time): Run {
    Then(Then(Then(TwiceBanned(at), Revoke(2)), Deactivate(0)), Tick(at + 1))
  }

  lemma TwiceBannedState(at: Time)
    ensures OneUser(StateOf(TwiceBanned(at)), at, map[1 := Ban(0, at, Some(at + 1), None), 2 := Ban(0, at, None, None)])
  {
    var once := TwiceBanned(at).before;
    assert OneUser(StateOf(once.before), at, map[]);
    assert OneUser(StateOf(once), at, map[1 := Ban(0, at, Some(at + 1), None)]);
  }

  lemma RevokedState(s: State, at: Time)
    requires OneUser(s, at, map[1 := Ban(0, at, Some(at + 1), None), 2 := Ban(0, at, None, None)])
    ensures OneUser(Apply(s, Revoke(2)), at,
                    map[1 := Ban(0, at, Some(at + 1), None), 2 := Ban(0, at, None, Some(at))])
  {
  }

  lemma ConfusedBans(at: Time)
    ensures var s := StateOf(ConfusedRun(at));
            && OneUser(s, at + 1, map[1 := Ban(0, at, Some(at + 1), None), 2 := Ban(0, at, None, Some(at))])
            && s.users[0] == User(Deactivated, false, None)
  {
    TwiceBannedState(at);
    RevokedState(StateOf(TwiceBanned(at)), at);
    var revoked := Then(TwiceBanned(at), Revoke(2));
    var left := Then(revoked, Deactivate(0));
    assert StateOf(revoked) == Apply(StateOf(TwiceBanned(at)), Revoke(2));
    assert StateOf(left) == Apply(StateOf(revoked), Deactivate(0));
    assert StateOf(ConfusedRun(at)) == Apply(StateOf(left), Tick(at + 1));
  }

  lemma OneConfusedUser(s: State, at: Time)
    requires OneUser(s, at + 1, map[1 := Ban(0, at, Some(at + 1), None), 2 := Ban(0, at, None, Some(at))])
    requires s.users[0].status.Deactivated?
    ensures FlippedBack(s) == ConfusedUsers(s) == {0} && NewlyBanned(s) == {} && Lapsed(s) == {}
    ensures Confused(s, 0)
  {
    assert InForce(s.bans[1], s.now) && Unexpired(s.bans[2], s.now);
    assert Confused(s, 0);
  }

  lemma ChainedFiltersReactivate(at: Time)
    ensures var s := StateOf(ConfusedRun(at));
            && FlippedBack(s) == ConfusedUsers(s) == {0}
            && SyncCount(s) == 2
            && 0 in Synced(s).users && Synced(s).users[0].status.Active?
  {
    var s := StateOf(ConfusedRun(at));
    ConfusedBans(at);
    OneConfusedUser(s, at);
    CountIsExact(s);
    SyncDecides(s, 0);
  }
}
