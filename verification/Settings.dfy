/** Runtime settings: rows with a cache in front of them. */
module Settings {
  import opened Common

  const CACHE_TIMEOUT: Time := Seconds(300)

  /** A JSON value; `Null` is the one that the cache cannot tell from a miss. */
  datatype Value = Null | Json(text: string)

  datatype Row = Row(value: Value, isPublic: bool, group: string)

  /** A keyword argument of `set` that names another field of the row. */
  datatype Field = Public(on: bool) | Group(name: string)

  /** A setting's key, and whether only public rows count. */
  type CacheKey = (string, bool)

  datatype Entry = Entry(value: Value, expiresAt: Time)

  datatype State = State(rows: map<string, Row>, cache: map<CacheKey, Entry>)

  /** `valid` is the verdict of the model's validation. `Write` is a row written, or deleted, past the service;
      `Evict` is the cache dropping an entry of its own accord. */
  datatype Step =
    | Get(key: string, default: Value, publicOnly: bool, at: Time)
    | Set(key: string, value: Value, fields: seq<Field>, valid: bool, at: Time)
    | Write(key: string, row: Option<Row>, at: Time)
    | Evict(entry: CacheKey, at: Time)

  datatype Run = Start(at: Time) | Then(before: Run, step: Step)

  function Visible(s: State, k: CacheKey): Option<Value> {
    if k.0 in s.rows && (k.1 ==> s.rows[k.0].isPublic) then Some(s.rows[k.0].value) else None
  }

  function Fetched(s: State, k: CacheKey, default: Value): Value {
    if Visible(s, k).Some? then Visible(s, k).value else default
  }

  predicate Hit(s: State, k: CacheKey, now: Time) {
    k in s.cache && s.cache[k].expiresAt > now && s.cache[k].value != Null
  }

  function Answer(s: State, k: CacheKey, default: Value, now: Time): Value {
    if Hit(s, k, now) then s.cache[k].value else Fetched(s, k, default)
  }

  function Assigned(row: Row, fields: seq<Field>): Row {
    if |fields| == 0 then row
    else
      var front := Assigned(row, fields[..|fields| - 1]);
      match fields[|fields| - 1]
      case Public(on) => front.(isPublic := on)
      case Group(name) => front.(group := name)
  }

  function Apply(s: State, step: Step): State {
    match step
    case Get(key, default, publicOnly, at) =>
      if Hit(s, (key, publicOnly), at) then s
      else
        var entry := Entry(Fetched(s, (key, publicOnly), default), at + CACHE_TIMEOUT);
        s.(cache := s.cache[(key, publicOnly) := entry])
    case Set(key, value, fields, valid, _) =>
      if !valid then s
      else
        var row := if key in s.rows then s.rows[key] else Row(Null, false, "general");
        State(s.rows[key := Assigned(row.(value := value), fields)], s.cache - {(key, false), (key, true)})
    case Write(key, row, _) =>
      s.(rows := if row.Some? then s.rows[key := row.value] else s.rows - {key})
    case Evict(k, _) => s.(cache := s.cache - {k})
  }

  function Clock(run: Run): Time {
    match run
    case Start(at) => at
    case Then(_, step) => step.at
  }

  predicate Timed(run: Run) {
    run.Then? ==> Timed(run.before) && Clock(run.before) <= run.step.at
  }

  function StateOf(run: Run): State {
    match run
    case Start(_) => State(map[], map[])
    case Then(before, step) => Apply(StateOf(before), step)
  }

  // ---------------------------------------------------------------------------------------
  // A value that was set is read back
  // ---------------------------------------------------------------------------------------

  /** The flag that the last field naming it gives, or else the row had. */
  function LastPublic(was: bool, fields: seq<Field>): bool {
    if |fields| == 0 then was
    else if fields[|fields| - 1].Public? then fields[|fields| - 1].on
    else LastPublic(was, fields[..|fields| - 1])
  }

  function LastGroup(was: string, fields: seq<Field>): string {
    if |fields| == 0 then was
    else if fields[|fields| - 1].Group? then fields[|fields| - 1].name
    else LastGroup(was, fields[..|fields| - 1])
  }

  lemma {:induction false} FieldsAreAssigned(row: Row, fields: seq<Field>)
    ensures Assigned(row, fields) == Row(row.value, LastPublic(row.isPublic, fields), LastGroup(row.group, fields))
  {
    if |fields| > 0 {
      FieldsAreAssigned(row, fields[..|fields| - 1]);
    }
  }

  /** The row as it was, or as a new one starts out. */
  function RowBefore(s: State, key: string): Row {
    if key in s.rows then s.rows[key] else Row(Null, false, "general")
  }

  /** A valid `set` leaves the value in the key's row, public and in a group as the fields say, leaves every other
      row alone, and drops what was cached for the key and nothing else. */
  ghost predicate HasSet(s: State, t: State, key: string, value: Value, fields: seq<Field>) {
    && key in t.rows && t.rows[key].value == value
    && t.rows[key].isPublic == LastPublic(RowBefore(s, key).isPublic, fields)
    && t.rows[key].group == LastGroup(RowBefore(s, key).group, fields)
    && (forall k :: k != key ==> Find(t.rows, k) == Find(s.rows, k))
    && (forall k: CacheKey :: Find(t.cache, k) == if k.0 == key then None else Find(s.cache, k))
  }

  lemma SetSaves(run: Run, key: string, value: Value, fields: seq<Field>, at: Time)
    ensures HasSet(StateOf(run), StateOf(Then(run, Set(key, value, fields, true, at))), key, value, fields)
  {
    var s, t := StateOf(run), StateOf(Then(run, Set(key, value, fields, true, at)));
    FieldsAreAssigned(RowBefore(s, key).(value := value), fields);
    forall k: CacheKey
      ensures Find(t.cache, k) == if k.0 == key then None else Find(s.cache, k)
    {
      assert k == (k.0, k.1) && (k.1 || !k.1);
    }
  }

  /** `run` continues `earlier` without a valid `set` and without a direct write of the key. */
  predicate LeavesRow(earlier: Run, run: Run, key: string) {
    || earlier == run
    || (run.Then? && LeavesRow(earlier, run.before, key)
        && !(run.step.Set? && run.step.key == key && run.step.valid) && !(run.step.Write? && run.step.key == key))
  }

  lemma {:induction false} SetValueStays(earlier: Run, run: Run, k: CacheKey, value: Value)
    requires LeavesRow(earlier, run, k.0)
    requires Visible(StateOf(earlier), k) == Some(value) && k !in StateOf(earlier).cache
    ensures Visible(StateOf(run), k) == Some(value)
    ensures k in StateOf(run).cache ==> StateOf(run).cache[k].value == value
  {
    if earlier != run {
      SetValueStays(earlier, run.before, k, value);
    }
  }

  /** Until the key is set or written again, `get` returns the value that was set, whatever its default and
      whatever becomes of the cache; the public form does so exactly if the row ended up public, and else
      sees no row. */
  lemma SetIsReadBack(before: Run, key: string, value: Value, fields: seq<Field>, at: Time, run: Run, default: Value, now: Time)
    requires LeavesRow(Then(before, Set(key, value, fields, true, at)), run, key)
    ensures var saved := Then(before, Set(key, value, fields, true, at));
            && Visible(StateOf(saved), (key, false)) == Some(value)
            && Answer(StateOf(run), (key, false), default, now) == value
            && (if LastPublic(RowBefore(StateOf(before), key).isPublic, fields)
                then Visible(StateOf(saved), (key, true)) == Some(value) && Answer(StateOf(run), (key, true), default, now) == value
                else Visible(StateOf(saved), (key, true)) == None)
  {
    var saved := Then(before, Set(key, value, fields, true, at));
    SetSaves(before, key, value, fields, at);
    assert Find(StateOf(saved).cache, (key, false)) == None && Find(StateOf(saved).cache, (key, true)) == None;
    SetValueStays(saved, run, (key, false), value);
    if LastPublic(RowBefore(StateOf(before), key).isPublic, fields) {
      SetValueStays(saved, run, (key, true), value);
    }
  }

  /** A direct write changes the row of its key and no cached value; an eviction drops a cached value and
      changes no row. */
  lemma WritesPassTheCache(run: Run, key: string, row: Option<Row>, entry: CacheKey, at: Time)
    ensures var s := StateOf(run);
            var written, evicted := StateOf(Then(run, Write(key, row, at))), StateOf(Then(run, Evict(entry, at)));
            && written.cache == s.cache && evicted.rows == s.rows
            && (forall k :: Find(written.rows, k) == if k == key then row else Find(s.rows, k))
            && (forall k: CacheKey :: Find(evicted.cache, k) == if k == entry then None else Find(s.cache, k))
  {
  }

  /** Without a visible row `get` returns the default that it is given, if nothing is cached. */
  lemma NoRowGivesDefault(s: State, k: CacheKey, default: Value, now: Time)
    requires k !in s.cache && (k.0 !in s.rows || (k.1 && !s.rows[k.0].isPublic))
    ensures Answer(s, k, default, now) == default
  {
  }

  /** A cached null counts as a miss: a row written after it is seen at once. */
  lemma NullIsAMiss(run: Run, k: CacheKey, row: Row, at: Time, default: Value, now: Time)
    requires Visible(StateOf(run), k).None? && k !in StateOf(run).cache && (k.1 ==> row.isPublic)
    ensures var missed := Then(run, Get(k.0, Null, k.1, at));
            && k in StateOf(missed).cache
            && Answer(StateOf(Then(missed, Write(k.0, Some(row), at))), k, default, now) == row.value
  {
    assert k == (k.0, k.1);
  }

  // ---------------------------------------------------------------------------------------
  // Coherence while rows change through the service only
  // ---------------------------------------------------------------------------------------

  predicate ThroughService(run: Run) {
    run.Then? ==> ThroughService(run.before) && !run.step.Write?
  }

  predicate Coherent(s: State) {
    forall k :: k in s.cache && s.cache[k].value != Null && Visible(s, k).Some? ==> s.cache[k].value == Visible(s, k).value
  }

  lemma {:induction false} ServiceKeepsCacheCoherent(run: Run)
    requires ThroughService(run)
    ensures Coherent(StateOf(run))
  {
    if run.Then? {
      var s, t := StateOf(run.before), StateOf(run);
      ServiceKeepsCacheCoherent(run.before);
      if run.step.Set? && run.step.valid {
        forall k | k in t.cache
          ensures Visible(t, k) == Visible(s, k)
        {
          assert k == (k.0, k.1) && (k.1 || !k.1);
          assert k !in {(run.step.key, false), (run.step.key, true)};
        }
      }
    }
  }

  /** With `get` and `set` as the only operations, `get` returns the current value whenever there is a
      visible row, whatever defaults earlier calls supplied. */
  lemma GetIsCurrent(run: Run, k: CacheKey, default: Value, now: Time)
    requires ThroughService(run) && Visible(StateOf(run), k).Some?
    ensures Answer(StateOf(run), k, default, now) == Visible(StateOf(run), k).value
  {
    ServiceKeepsCacheCoherent(run);
  }

  // ---------------------------------------------------------------------------------------
  // Bounded staleness with direct writes
  // ---------------------------------------------------------------------------------------

  predicate Extends(earlier: Run, run: Run) {
    earlier == run || (run.Then? && Extends(earlier, run.before))
  }

  /** `origin` ends with the call that read `v` for `k` from the rows, or took its own default. */
  predicate ReadIn(origin: Run, k: CacheKey, v: Value) {
    && origin.Then? && origin.step.Get?
    && k == (origin.step.key, origin.step.publicOnly)
    && v == Fetched(StateOf(origin.before), k, origin.step.default)
  }

  lemma {:induction false} EntryHasOrigin(run: Run, k: CacheKey) returns (origin: Run)
    requires k in StateOf(run).cache
    ensures Extends(origin, run) && ReadIn(origin, k, StateOf(run).cache[k].value)
    ensures Clock(origin) + CACHE_TIMEOUT == StateOf(run).cache[k].expiresAt
  {
    var s := StateOf(run.before);
    if k in s.cache && StateOf(run).cache[k] == s.cache[k] {
      origin := EntryHasOrigin(run.before, k);
    } else {
      origin := run;
    }
  }

  lemma {:induction false} ExtendsClock(earlier: Run, run: Run)
    requires Extends(earlier, run) && Timed(run)
    ensures Clock(earlier) <= Clock(run)
  {
    if earlier != run {
      ExtendsClock(earlier, run.before);
    }
  }

  /** Rows may be written behind the cache: every answer is what the rows show now, or the default of this
      call, or what an earlier call read, or took as its default, less than 300 seconds ago. */
  lemma AnswersAreRecent(run: Run, k: CacheKey, default: Value, now: Time) returns (origin: Run)
    requires Timed(run) && Clock(run) <= now
    ensures Answer(StateOf(run), k, default, now) != Fetched(StateOf(run), k, default) ==>
              && Extends(origin, run)
              && ReadIn(origin, k, Answer(StateOf(run), k, default, now))
              && now - Seconds(300) < Clock(origin) <= now
  {
    origin := run;
    if Hit(StateOf(run), k, now) {
      origin := EntryHasOrigin(run, k);
      ExtendsClock(origin, run);
    }
  }

  /** The bound is met by a write right after a read: up to its last instant the old value is returned. */
  lemma StalenessIsReal(key: string, before: string, after: string, at: Time, now: Time)
    requires before != after && at <= now < at + Seconds(300)
    ensures var written := Then(Start(at), Write(key, Some(Row(Json(before), true, "general")), at));
            var read := Then(written, Get(key, Null, false, at));
            var run := Then(read, Write(key, Some(Row(Json(after), true, "general")), at));
            && Answer(StateOf(run), (key, false), Null, now) == Json(before)
            && Visible(StateOf(run), (key, false)) == Some(Json(after))
  {
    var written := Then(Start(at), Write(key, Some(Row(Json(before), true, "general")), at));
    assert StateOf(written).cache == map[];
    assert Fetched(StateOf(written), (key, false), Null) == Json(before);
    var read := Then(written, Get(key, Null, false, at));
    assert StateOf(read).cache[(key, false)] == Entry(Json(before), at + CACHE_TIMEOUT);
  }

  // ---------------------------------------------------------------------------------------
  // The stored settings
  // ---------------------------------------------------------------------------------------

  class SettingStore {
    var rows: map<string, Row>
    var cache: map<CacheKey, Entry>
    ghost var log: Run

    function View(): State
      reads this
    {
      State(rows, cache)
    }

    ghost predicate Valid()
      reads this
    {
      View() == StateOf(log) && Timed(log)
    }

    constructor (at: Time)
      ensures Valid() && log == Start(at)
    {
      rows, cache, log := map[], map[], Start(at);
    }

    method Get(key: string, default: Value, publicOnly: bool, now: Time) returns (value: Value)
      requires Valid() && Clock(log) <= now
      modifies this
      ensures Valid() && log == Then(old(log), Step.Get(key, default, publicOnly, now))
      ensures value == Answer(old(View()), (key, publicOnly), default, now)
      ensures ThroughService(old(log)) && Visible(old(View()), (key, publicOnly)).Some? ==>
                value == Visible(old(View()), (key, publicOnly)).value
    {
      if ThroughService(log) && Visible(View(), (key, publicOnly)).Some? {
        GetIsCurrent(log, (key, publicOnly), default, now);
      }
      log := Then(log, Step.Get(key, default, publicOnly, now));
      var k := (key, publicOnly);
      if k in cache && cache[k].expiresAt > now && cache[k].value != Null {
        return cache[k].value;
      }
      value := if key in rows && (publicOnly ==> rows[key].isPublic) then rows[key].value else default;
      cache := cache[k := Entry(value, now + CACHE_TIMEOUT)];
    }

    /** False stands for the validation error: the transaction is rolled back before anything is saved. */
    method Set(key: string, value: Value, fields: seq<Field>, valid: bool, now: Time) returns (ok: bool)
      requires Valid() && Clock(log) <= now
      modifies this
      ensures Valid() && log == Then(old(log), Step.Set(key, value, fields, valid, now))
      ensures ok == valid
      ensures if ok then HasSet(old(View()), View(), key, value, fields) else View() == old(View())
    {
      SetSaves(log, key, value, fields, now);
      log := Then(log, Step.Set(key, value, fields, valid, now));
      var row := if key in rows then rows[key] else Row(Null, false, "general");
      row := row.(value := value);
      ghost var first := row;
      for i := 0 to |fields|
        invariant row == Assigned(first, fields[..i])
      {
        match fields[i] {
          case Public(on) => row := row.(isPublic := on);
          case Group(name) => row := row.(group := name);
        }
        assert fields[..i + 1][..i] == fields[..i];
      }
      assert fields[..|fields|] == fields;
      if !valid {
        return false;
      }
      rows := rows[key := row];
      cache := cache - {(key, false)};
      cache := cache - {(key, true)};
      ok := true;
    }
  }
}
