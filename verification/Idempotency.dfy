/**
 Idempotent requests: concurrent transactions that look a key up, insert its record, run the wrapped
 method and fill the record in. Other transactions see a record only once it is committed; an insert
 waits for another open transaction that has inserted the same key.
 */
module Idempotency {
  import opened Common

  /** A request that carries a key; keyed hashes are injective, so the key stands for its hash. */
  datatype Request = Request(user: nat, key: string, verb: string, path: string, body: string)

  type Slot = (nat, string)

  function SlotOf(r: Request): Slot {
    (r.user, r.key)
  }

  /** What the request hash is taken of. */
  function Text(r: Request): string {
    r.verb + r.path + r.body
  }

  datatype Record = Record(text: string, status: Option<int>, body: string)

  datatype Phase = Looked | Inserted | Ran(status: int, body: string)

  /** `since` is the number of committed effects when the transaction looked its key up. */
  datatype Tx = Tx(request: Request, phase: Phase, since: nat)

  /** A committed run of the wrapped method. */
  datatype Effect = Effect(tx: nat, request: Request, status: int, body: string)

  datatype Reply =
    | Fresh(status: int, body: string)
    | Replayed(status: int, body: string)
    | KeyReused
    | StillInProgress
    | LostRace
    | Raised

  datatype Answer = Answer(request: Request, since: nat, reply: Reply)

  datatype State = State(records: map<Slot, Record>, txs: map<nat, Tx>, effects: seq<Effect>, answers: map<nat, Answer>)

  datatype Outcome = Returned(status: int, body: string) | Failed | NotSerializable

  datatype Step =
    | Begin(tx: nat, request: Request)
    | Insert(tx: nat)
    | Execute(tx: nat, outcome: Outcome)
    | Commit(tx: nat)
    | Abort(tx: nat)

  datatype Run = Start | Then(before: Run, step: Step)

  function Answered(s: State, t: nat, request: Request, since: nat, reply: Reply): State {
    s.(txs := s.txs - {t}, answers := s.answers[t := Answer(request, since, reply)])
  }

  function Recorded(s: State, t: nat, request: Request, status: int, body: string): State {
    s.(records := s.records[SlotOf(request) := Record(Text(request), Some(status), body)],
       effects := s.effects + [Effect(t, request, status, body)])
  }

  function Lookup(record: Record, request: Request): Reply {
    if record.text != Text(request) then KeyReused
    else if record.status.None? then StillInProgress
    else Replayed(record.status.value, record.body)
  }

  /** Another open transaction has inserted the slot. */
  predicate Held(s: State, t: nat, slot: Slot) {
    exists o :: o in s.txs && o != t && !s.txs[o].phase.Looked? && SlotOf(s.txs[o].request) == slot
  }

  function Apply(s: State, step: Step): State {
    match step
    case Begin(t, request) =>
      if t in s.txs || t in s.answers then s
      else if SlotOf(request) in s.records
      then Answered(s, t, request, |s.effects|, Lookup(s.records[SlotOf(request)], request))
      else s.(txs := s.txs[t := Tx(request, Looked, |s.effects|)])
    case Insert(t) =>
      if t !in s.txs || !s.txs[t].phase.Looked? then s
      else
        var tx := s.txs[t];
        if SlotOf(tx.request) in s.records then Answered(s, t, tx.request, tx.since, LostRace)
        else if Held(s, t, SlotOf(tx.request)) then s
        else s.(txs := s.txs[t := tx.(phase := Inserted)])
    case Execute(t, outcome) =>
      if t !in s.txs || !s.txs[t].phase.Inserted? then s
      else if outcome.Returned?
      then s.(txs := s.txs[t := s.txs[t].(phase := Ran(outcome.status, outcome.body))])
      else Answered(s, t, s.txs[t].request, s.txs[t].since, Raised)
    case Commit(t) =>
      if t !in s.txs || !s.txs[t].phase.Ran? then s
      else
        var Tx(request, Ran(status, body), since) := s.txs[t];
        Answered(Recorded(s, t, request, status, body), t, request, since, Fresh(status, body))
    case Abort(t) =>
      if t !in s.txs then s else Answered(s, t, s.txs[t].request, s.txs[t].since, Raised)
  }

  function StateOf(run: Run): State {
    match run
    case Start => State(map[], map[], [], map[])
    case Then(before, step) => Apply(StateOf(before), step)
  }

  // ---------------------------------------------------------------------------------------
  // Invariants of every interleaving
  // ---------------------------------------------------------------------------------------

  predicate OneEffectPerSlot(s: State) {
    forall i, j :: 0 <= i < j < |s.effects| ==> SlotOf(s.effects[i].request) != SlotOf(s.effects[j].request)
  }

  predicate IsEffectOf(e: Effect, slot: Slot, record: Record) {
    SlotOf(e.request) == slot && record == Record(Text(e.request), Some(e.status), e.body)
  }

  function Journal(effects: seq<Effect>): map<Slot, Record> {
    if |effects| == 0 then map[]
    else
      var e := effects[|effects| - 1];
      Journal(effects[..|effects| - 1])[SlotOf(e.request) := Record(Text(e.request), Some(e.status), e.body)]
  }

  /** The committed records are the committed effects, complete with their responses. */
  predicate RecordsAreEffects(s: State) {
    s.records == Journal(s.effects)
  }

  lemma {:induction false} JournalCovers(effects: seq<Effect>, i: nat)
    requires i < |effects|
    ensures SlotOf(effects[i].request) in Journal(effects)
  {
    if i < |effects| - 1 {
      JournalCovers(effects[..|effects| - 1], i);
    }
  }

  lemma {:induction false} JournalEntry(effects: seq<Effect>, slot: Slot) returns (i: nat)
    requires slot in Journal(effects)
    ensures i < |effects| && IsEffectOf(effects[i], slot, Journal(effects)[slot])
  {
    i := |effects| - 1;
    if SlotOf(effects[i].request) != slot {
      i := JournalEntry(effects[..|effects| - 1], slot);
    }
  }

  predicate OpenTransactionsAreApart(s: State) {
    && (forall t :: t in s.txs && !s.txs[t].phase.Looked? ==> SlotOf(s.txs[t].request) !in s.records)
    && (forall t, o :: t in s.txs && o in s.txs && t != o && !s.txs[t].phase.Looked? && !s.txs[o].phase.Looked?
          ==> SlotOf(s.txs[t].request) != SlotOf(s.txs[o].request))
    && (forall t :: t in s.txs ==> t !in s.answers)
  }

  predicate LookedBeforeEffects(s: State) {
    forall t :: t in s.txs ==>
      && s.txs[t].since <= |s.effects|
      && forall i :: 0 <= i < s.txs[t].since ==> SlotOf(s.effects[i].request) != SlotOf(s.txs[t].request)
  }

  /** The effect at `i` is the reason for the answer. */
  predicate Explains(t: nat, a: Answer, i: nat, e: Effect) {
    && SlotOf(e.request) == SlotOf(a.request)
    && match a.reply
       case Fresh(status, body) => e == Effect(t, a.request, status, body)
       case Replayed(status, body) => Text(e.request) == Text(a.request) && e.status == status && e.body == body
       case KeyReused => Text(e.request) != Text(a.request)
       case LostRace => i >= a.since
       case _ => false
  }

  predicate Explained(t: nat, a: Answer, effects: seq<Effect>) {
    a.reply.Raised? || exists i :: 0 <= i < |effects| && Explains(t, a, i, effects[i])
  }

  predicate AnswersAreExplained(s: State) {
    forall t :: t in s.answers ==> Explained(t, s.answers[t], s.effects)
  }

  predicate Inv(s: State) {
    && OneEffectPerSlot(s) && RecordsAreEffects(s) && OpenTransactionsAreApart(s)
    && LookedBeforeEffects(s) && AnswersAreExplained(s)
  }

  lemma AnsweringKeepsInv(s: State, t: nat, request: Request, since: nat, reply: Reply)
    requires Inv(s) && Explained(t, Answer(request, since, reply), s.effects)
    ensures Inv(Answered(s, t, request, since, reply))
  {
  }

  lemma OpeningKeepsInv(s: State, t: nat, request: Request)
    requires Inv(s) && t !in s.txs && t !in s.answers && SlotOf(request) !in s.records
    ensures Inv(Apply(s, Begin(t, request)))
  {
    var after := Apply(s, Begin(t, request));
    forall i | 0 <= i < |s.effects|
      ensures SlotOf(s.effects[i].request) != SlotOf(request)
    {
      JournalCovers(s.effects, i);
    }
    assert after == s.(txs := s.txs[t := Tx(request, Looked, |s.effects|)]);
    assert LookedBeforeEffects(after);
    assert OpenTransactionsAreApart(after);
  }

  lemma BeginKeepsInv(s: State, t: nat, request: Request)
    requires Inv(s)
    ensures Inv(Apply(s, Begin(t, request)))
  {
    var slot := SlotOf(request);
    if t !in s.txs && t !in s.answers {
      if slot in s.records {
        var i := JournalEntry(s.effects, slot);
        var a := Answer(request, |s.effects|, Lookup(s.records[slot], request));
        assert Explains(t, a, i, s.effects[i]);
        assert Explained(t, a, s.effects);
        AnsweringKeepsInv(s, t, request, |s.effects|, a.reply);
      } else {
        OpeningKeepsInv(s, t, request);
      }
    }
  }

  lemma ExecuteKeepsInv(s: State, t: nat, outcome: Outcome)
    requires Inv(s)
    ensures Inv(Apply(s, Execute(t, outcome)))
  {
    if t in s.txs && s.txs[t].phase.Inserted? && !outcome.Returned? {
      AnsweringKeepsInv(s, t, s.txs[t].request, s.txs[t].since, Raised);
    }
  }

  lemma AbortKeepsInv(s: State, t: nat)
    requires Inv(s)
    ensures Inv(Apply(s, Abort(t)))
  {
    if t in s.txs {
      AnsweringKeepsInv(s, t, s.txs[t].request, s.txs[t].since, Raised);
    }
  }

  lemma InsertKeepsInv(s: State, t: nat)
    requires Inv(s)
    ensures Inv(Apply(s, Insert(t)))
  {
    if t in s.txs && s.txs[t].phase.Looked? {
      var tx := s.txs[t];
      var slot := SlotOf(tx.request);
      if slot in s.records {
        var i := JournalEntry(s.effects, slot);
        var a := Answer(tx.request, tx.since, LostRace);
        assert Explains(t, a, i, s.effects[i]);
        AnsweringKeepsInv(s, t, tx.request, tx.since, LostRace);
      }
    }
  }

  lemma RecordingKeepsEffects(s: State, t: nat, request: Request, status: int, body: string)
    requires OneEffectPerSlot(s) && RecordsAreEffects(s) && SlotOf(request) !in s.records
    ensures OneEffectPerSlot(Recorded(s, t, request, status, body))
    ensures RecordsAreEffects(Recorded(s, t, request, status, body))
  {
    var n, after := |s.effects|, Recorded(s, t, request, status, body);
    assert after.effects[..n] == s.effects;
    forall i, j | 0 <= i < j < |after.effects|
      ensures SlotOf(after.effects[i].request) != SlotOf(after.effects[j].request)
    {
      JournalCovers(s.effects, i);
      assert after.effects[i] == s.effects[i];
      assert j < n ==> after.effects[j] == s.effects[j];
    }
  }

  lemma RecordingKeepsAnswers(s: State, t: nat, request: Request, status: int, body: string)
    requires AnswersAreExplained(s)
    ensures AnswersAreExplained(Recorded(s, t, request, status, body))
  {
    var after := Recorded(s, t, request, status, body);
    forall o | o in after.answers
      ensures Explained(o, after.answers[o], after.effects)
    {
      assert Explained(o, s.answers[o], s.effects);
      if !s.answers[o].reply.Raised? {
        var i :| 0 <= i < |s.effects| && Explains(o, s.answers[o], i, s.effects[i]);
        assert after.effects[i] == s.effects[i];
      }
    }
  }

  /** Recording the response of `t`, whose insert is open, ends `t`; the rest looked before it. */
  lemma RecordingKeepsTransactions(s: State, t: nat, status: int, body: string)
    requires OpenTransactionsAreApart(s) && LookedBeforeEffects(s)
    requires t in s.txs && s.txs[t].phase.Ran?
    ensures var after := Recorded(s, t, s.txs[t].request, status, body).(txs := s.txs - {t}, answers := s.answers);
            OpenTransactionsAreApart(after) && LookedBeforeEffects(after)
  {
    var after := Recorded(s, t, s.txs[t].request, status, body).(txs := s.txs - {t}, answers := s.answers);
    forall o | o in after.txs
      ensures after.txs[o].since <= |after.effects|
      ensures forall i :: 0 <= i < after.txs[o].since ==> SlotOf(after.effects[i].request) != SlotOf(after.txs[o].request)
    {
      assert forall i :: 0 <= i < |s.effects| ==> after.effects[i] == s.effects[i];
    }
  }

  lemma CommitIsExplained(s: State, t: nat)
    requires AnswersAreExplained(s) && t in s.txs && s.txs[t].phase.Ran?
    ensures AnswersAreExplained(Apply(s, Commit(t)))
  {
    var Tx(request, Ran(status, body), since) := s.txs[t];
    var after, n := Apply(s, Commit(t)), |s.effects|;
    RecordingKeepsAnswers(s, t, request, status, body);
    assert Explains(t, after.answers[t], n, after.effects[n]);
  }

  lemma CommitKeepsInv(s: State, t: nat)
    requires Inv(s)
    ensures Inv(Apply(s, Commit(t)))
  {
    if t in s.txs && s.txs[t].phase.Ran? {
      var Tx(request, Ran(status, body), since) := s.txs[t];
      RecordingKeepsEffects(s, t, request, status, body);
      RecordingKeepsTransactions(s, t, status, body);
      CommitIsExplained(s, t);
    }
  }

  lemma {:induction false} EveryInterleavingKeepsInv(run: Run)
    ensures Inv(StateOf(run))
  {
    if run.Then? {
      var s := StateOf(run.before);
      EveryInterleavingKeepsInv(run.before);
      match run.step
      case Begin(t, request) => BeginKeepsInv(s, t, request);
      case Insert(t) => InsertKeepsInv(s, t);
      case Execute(t, outcome) => ExecuteKeepsInv(s, t, outcome);
      case Commit(t) => CommitKeepsInv(s, t);
      case Abort(t) => AbortKeepsInv(s, t);
    }
  }

  // ---------------------------------------------------------------------------------------
  // What callers may rely on
  // ---------------------------------------------------------------------------------------

  /** The wrapped method commits at most once for a user and key. */
  lemma CommitsAtMostOnce(run: Run, i: nat, j: nat)
    requires i < |StateOf(run).effects| && j < |StateOf(run).effects|
    requires SlotOf(StateOf(run).effects[i].request) == SlotOf(StateOf(run).effects[j].request)
    ensures i == j
  {
    EveryInterleavingKeepsInv(run);
  }

  /** The transaction of the effect is over, and its caller was given the response as a fresh one. */
  predicate IsAnswered(s: State, e: Effect) {
    && e.tx in s.answers && e.tx !in s.txs
    && s.answers[e.tx].request == e.request && s.answers[e.tx].reply == Fresh(e.status, e.body)
  }

  lemma StepKeepsAnswered(s: State, step: Step, e: Effect)
    requires IsAnswered(s, e) && forall t :: t in s.txs ==> t !in s.answers
    ensures IsAnswered(Apply(s, step), e)
  {
  }

  lemma StepAddsAnswered(s: State, step: Step, i: nat)
    requires i < |Apply(s, step).effects|
    ensures i < |s.effects| ==> Apply(s, step).effects[i] == s.effects[i]
    ensures i >= |s.effects| ==> IsAnswered(Apply(s, step), Apply(s, step).effects[i])
  {
  }

  /** Every commit gave its caller the response that it recorded. */
  lemma {:induction false} EveryCommitIsAnswered(run: Run, i: nat)
    requires i < |StateOf(run).effects|
    ensures IsAnswered(StateOf(run), StateOf(run).effects[i])
  {
    var s := StateOf(run.before);
    StepAddsAnswered(s, run.step, i);
    if i < |s.effects| {
      EveryCommitIsAnswered(run.before, i);
      EveryInterleavingKeepsInv(run.before);
      StepKeepsAnswered(s, run.step, s.effects[i]);
    }
  }

  /** A replay returns the status and body of the only commit for its user and key, whose request text is
      the same. */
  lemma ReplayIsTheCommit(run: Run, t: nat, i: nat)
    requires t in StateOf(run).answers && StateOf(run).answers[t].reply.Replayed?
    requires i < |StateOf(run).effects|
    requires SlotOf(StateOf(run).effects[i].request) == SlotOf(StateOf(run).answers[t].request)
    ensures var e, a := StateOf(run).effects[i], StateOf(run).answers[t];
            a.reply == Replayed(e.status, e.body) && Text(a.request) == Text(e.request)
  {
    var s := StateOf(run);
    EveryInterleavingKeepsInv(run);
    assert Explained(t, s.answers[t], s.effects);
    var k :| 0 <= k < |s.effects| && Explains(t, s.answers[t], k, s.effects[k]);
    CommitsAtMostOnce(run, i, k);
  }

  /** A fresh answer is a commit of its own; a conflict over the request names another text under the same
      key; a lost race names a commit that came after this request had looked the key up; the branch for a
      committed record without a response is never taken. */
  lemma AnswersHaveReasons(run: Run, t: nat)
    requires t in StateOf(run).answers
    ensures var s, a := StateOf(run), StateOf(run).answers[t];
            && !a.reply.StillInProgress?
            && (a.reply.Fresh? ==> Effect(t, a.request, a.reply.status, a.reply.body) in s.effects)
            && (a.reply.KeyReused? ==> exists e :: e in s.effects && SlotOf(e.request) == SlotOf(a.request)
                                                    && Text(e.request) != Text(a.request))
            && (a.reply.LostRace? ==> exists i :: a.since <= i < |s.effects|
                                                  && SlotOf(s.effects[i].request) == SlotOf(a.request))
  {
    var s, a := StateOf(run), StateOf(run).answers[t];
    EveryInterleavingKeepsInv(run);
    assert Explained(t, a, s.effects);
    if !a.reply.Raised? {
      var i :| 0 <= i < |s.effects| && Explains(t, a, i, s.effects[i]);
      assert s.effects[i] in s.effects;
    }
  }

  lemma RecordsHaveResponses(s: State, slot: Slot)
    requires RecordsAreEffects(s) && slot in s.records
    ensures s.records[slot].status.Some?
  {
    var i := JournalEntry(s.effects, slot);
  }

  /** A transaction that raised or was aborted leaves neither a record nor an effect: both change by
      commits only, and every committed record holds a response. */
  lemma OnlyCommitsLeaveARecord(run: Run, step: Step)
    ensures var s, after := StateOf(run), Apply(StateOf(run), step);
            (after.records == s.records && after.effects == s.effects) || (step.Commit? && |after.effects| == |s.effects| + 1)
    ensures forall slot :: slot in StateOf(run).records ==> StateOf(run).records[slot].status.Some?
  {
    EveryInterleavingKeepsInv(run);
    forall slot | slot in StateOf(run).records
      ensures StateOf(run).records[slot].status.Some?
    {
      RecordsHaveResponses(StateOf(run), slot);
    }
  }

  /** An insert loses the race exactly when a request with the key has committed meanwhile; it waits while
      another open transaction has inserted the key, and succeeds otherwise. */
  lemma InsertDecides(run: Run, t: nat)
    requires t in StateOf(run).txs && StateOf(run).txs[t].phase.Looked?
    ensures var s, after := StateOf(run), StateOf(Then(run, Insert(t)));
            var tx := s.txs[t];
            if exists i :: 0 <= i < |s.effects| && SlotOf(s.effects[i].request) == SlotOf(tx.request)
            then t !in after.txs && t in after.answers && after.answers[t] == Answer(tx.request, tx.since, LostRace)
            else if exists o :: o in s.txs && o != t && !s.txs[o].phase.Looked? && SlotOf(s.txs[o].request) == SlotOf(tx.request)
            then after == s
            else after == s.(txs := s.txs[t := Tx(tx.request, Inserted, tx.since)])
  {
    var s := StateOf(run);
    var slot := SlotOf(s.txs[t].request);
    EveryInterleavingKeepsInv(run);
    if slot in s.records {
      var k := JournalEntry(s.effects, slot);
    }
    if i :| 0 <= i < |s.effects| && SlotOf(s.effects[i].request) == slot {
      JournalCovers(s.effects, i);
    }
  }

  /** A method that raises, or a response that cannot be stored, ends its transaction, as an abort does: the
      caller is told, nothing stays behind, and the key is no longer held by it. */
  lemma FailureLeavesKeyFree(run: Run, t: nat, outcome: Outcome)
    requires t in StateOf(run).txs && StateOf(run).txs[t].phase.Inserted? && !outcome.Returned?
    ensures var s, after := StateOf(run), StateOf(Then(run, Execute(t, outcome)));
            && after == StateOf(Then(run, Abort(t)))
            && t !in after.txs && t in after.answers && after.answers[t].reply == Raised
            && after.records == s.records && after.effects == s.effects
            && forall o :: o != t ==> !Held(after, o, SlotOf(s.txs[t].request))
  {
    EveryInterleavingKeepsInv(run);
  }

  /** A new request whose key has a committed effect is answered at once: with that effect's response if the
      texts are the same, and with a conflict otherwise. A request whose key has none is not answered yet. */
  lemma KnownKeyIsAnswered(run: Run, t: nat, request: Request)
    requires t !in StateOf(run).txs && t !in StateOf(run).answers
    ensures forall i :: 0 <= i < |StateOf(run).effects| && SlotOf(StateOf(run).effects[i].request) == SlotOf(request) ==>
              var e, after := StateOf(run).effects[i], StateOf(Then(run, Begin(t, request)));
              && t in after.answers && after.answers[t].request == request
              && after.answers[t].reply == if Text(e.request) == Text(request) then Replayed(e.status, e.body) else KeyReused
    ensures (forall i :: 0 <= i < |StateOf(run).effects| ==> SlotOf(StateOf(run).effects[i].request) != SlotOf(request)) ==>
              t in StateOf(Then(run, Begin(t, request))).txs
  {
    var s := StateOf(run);
    EveryInterleavingKeepsInv(run);
    if SlotOf(request) in s.records {
      var k := JournalEntry(s.effects, SlotOf(request));
      forall i | 0 <= i < |s.effects| && SlotOf(s.effects[i].request) == SlotOf(request)
        ensures i == k
      {
        CommitsAtMostOnce(run, i, k);
      }
    } else {
      forall i | 0 <= i < |s.effects|
        ensures SlotOf(s.effects[i].request) != SlotOf(request)
      {
        JournalCovers(s.effects, i);
      }
    }
  }

  // ---------------------------------------------------------------------------------------
  // What equal request texts have in common
  // ---------------------------------------------------------------------------------------

  /** An HTTP method has no slash and a path begins with one. */
  predicate WellFormed(r: Request) {
    '/' !in r.verb && |r.path| > 0 && r.path[0] == '/'
  }

  lemma SameTextSplits(a: Request, b: Request)
    requires WellFormed(a) && WellFormed(b) && Text(a) == Text(b)
    ensures a.verb == b.verb && a.path + a.body == b.path + b.body
    ensures a.path == b.path ==> a.body == b.body
  {
    var x, y := Text(a), Text(b);
    assert x[|a.verb|] == '/' && y[|b.verb|] == '/';
    assert forall i :: 0 <= i < |a.verb| ==> x[i] == a.verb[i] && x[i] != '/';
    assert forall i :: 0 <= i < |b.verb| ==> y[i] == b.verb[i] && y[i] != '/';
    assert |a.verb| == |b.verb|;
    assert x[..|a.verb|] == a.verb && y[..|b.verb|] == b.verb;
    assert x[|a.verb|..] == a.path + a.body && y[|b.verb|..] == b.path + b.body;
    assert |a.path| == |b.path| ==> (a.path + a.body)[|a.path|..] == a.body && (b.path + b.body)[|b.path|..] == b.body;
  }

  /** Two requests have one text exactly when their methods agree and their paths and bodies run together to
      the same; with equal paths that is the same body. */
  lemma SameTextIff(a: Request, b: Request)
    requires WellFormed(a) && WellFormed(b)
    ensures Text(a) == Text(b) <==> a.verb == b.verb && a.path + a.body == b.path + b.body
    ensures a.path == b.path ==> (Text(a) == Text(b) <==> a.verb == b.verb && a.body == b.body)
  {
    if Text(a) == Text(b) {
      SameTextSplits(a, b);
    }
    if a.verb == b.verb {
      assert Text(a) == a.verb + (a.path + a.body) && Text(b) == b.verb + (b.path + b.body);
    }
  }

  /** The bodies that make up the difference between two paths. */
  function Completed(p: string, q: string): string {
    if p < q then q[|p|..] else ""
  }

  lemma PathsJoinIff(p: string, q: string)
    requires p != q
    ensures (exists x: string, y: string :: p + x == q + y) <==> p < q || q < p
  {
    if x: string, y: string :| p + x == q + y {
      assert |p| <= |q| ==> p == (p + x)[..|p|] == (q + y)[..|p|] == q[..|p|];
      assert |q| <= |p| ==> q == (q + y)[..|q|] == (p + x)[..|q|] == p[..|q|];
    }
    if p < q || q < p {
      assert p + Completed(p, q) == q + Completed(q, p);
    }
  }

  /** A replay is given only to the method, and to the path and body run together, that were committed: to
      the same path and body, or to a path that extends the committed one or is extended by it. */
  lemma ReplayIsForTheSameRequest(run: Run, t: nat, i: nat)
    requires t in StateOf(run).answers && StateOf(run).answers[t].reply.Replayed?
    requires i < |StateOf(run).effects|
    requires SlotOf(StateOf(run).effects[i].request) == SlotOf(StateOf(run).answers[t].request)
    requires WellFormed(StateOf(run).effects[i].request) && WellFormed(StateOf(run).answers[t].request)
    ensures var a, b := StateOf(run).answers[t].request, StateOf(run).effects[i].request;
            && a.verb == b.verb && a.path + a.body == b.path + b.body
            && (if a.path == b.path then a == b else a.path < b.path || b.path < a.path)
  {
    var a, b := StateOf(run).answers[t].request, StateOf(run).effects[i].request;
    ReplayIsTheCommit(run, t, i);
    SameTextIff(a, b);
    if a.path != b.path {
      PathsJoinIff(a.path, b.path);
    }
  }

  /** The first request runs through and commits; then the second one arrives. */
  function OneAfterTheOther(a: Request, b: Request, status: int, body: string): Run {
    var looked := Then(Start, Begin(0, a));
    var ran := Then(Then(looked, Insert(0)), Execute(0, Returned(status, body)));
    Then(Then(ran, Commit(0)), Begin(1, b))
  }

  lemma SecondIsReplayed(a: Request, b: Request, status: int, body: string)
    requires SlotOf(a) == SlotOf(b) && Text(a) == Text(b)
    ensures var s := StateOf(OneAfterTheOther(a, b, status, body));
            s.effects == [Effect(0, a, status, body)] && 1 in s.answers && s.answers[1] == Answer(b, 1, Replayed(status, body))
  {
    var committed := OneAfterTheOther(a, b, status, body).before;
    var ran := committed.before;
    var inserted := ran.before;
    assert StateOf(inserted.before) == State(map[], map[0 := Tx(a, Looked, 0)], [], map[]);
    assert !Held(StateOf(inserted.before), 0, SlotOf(a));
    assert StateOf(inserted) == State(map[], map[0 := Tx(a, Inserted, 0)], [], map[]);
    assert StateOf(ran) == State(map[], map[0 := Tx(a, Ran(status, body), 0)], [], map[]);
    assert StateOf(committed).records == map[SlotOf(a) := Record(Text(a), Some(status), body)];
    assert StateOf(committed).answers.Keys == {0} && StateOf(committed).txs == map[];
  }

  predicate ReplaysAcross(run: Run, t: nat, i: nat, p: string, q: string) {
    var s := StateOf(run);
    && t in s.answers && s.answers[t].reply.Replayed? && i < |s.effects|
    && SlotOf(s.effects[i].request) == SlotOf(s.answers[t].request)
    && WellFormed(s.effects[i].request) && WellFormed(s.answers[t].request)
    && s.effects[i].request.path == p && s.answers[t].request.path == q
  }

  /** In some run a commit for path `p` is replayed to a request for path `q`. */
  ghost predicate CrossesPaths(p: string, q: string) {
    exists run: Run, t: nat, i: nat :: ReplaysAcross(run, t, i, p, q)
  }

  /** The hash does not mark where the path ends. Between different paths a replay is possible exactly when
      one of them extends the other. */
  lemma ReplayCrossesPathsIff(p: string, q: string)
    requires p != q && |p| > 0 && p[0] == '/' && |q| > 0 && q[0] == '/'
    ensures CrossesPaths(p, q) <==> p < q || q < p
  {
    if run: Run, t: nat, i: nat :| ReplaysAcross(run, t, i, p, q) {
      ReplayIsForTheSameRequest(run, t, i);
    }
    if p < q || q < p {
      var a, b := Request(0, "k", "POST", p, Completed(p, q)), Request(0, "k", "POST", q, Completed(q, p));
      assert p + Completed(p, q) == q + Completed(q, p);
      SameTextIff(a, b);
      SecondIsReplayed(a, b, 201, "");
      assert ReplaysAcross(OneAfterTheOther(a, b, 201, ""), 1, 0, p, q);
    }
  }

  const ROUTE := "/api/v1/api-keys.json"

  /** The route that creates API keys may be written with a format suffix, with or without a final slash. A
      request to the longer form is replayed to one for the shorter form whose body begins with that slash. */
  lemma BoundaryIsNotHashed(user: nat, key: string, body: string, status: int, response: string)
    ensures var a, b := Request(user, key, "POST", ROUTE + "/", body), Request(user, key, "POST", ROUTE, "/" + body);
            var s := StateOf(OneAfterTheOther(a, b, status, response));
            && a.path != b.path && WellFormed(a) && WellFormed(b)
            && 1 in s.answers && s.answers[1] == Answer(b, 1, Replayed(status, response))
            && s.effects == [Effect(0, a, status, response)]
  {
    var a, b := Request(user, key, "POST", ROUTE + "/", body), Request(user, key, "POST", ROUTE, "/" + body);
    assert a.path + a.body == b.path + b.body;
    SameTextIff(a, b);
    assert |a.path| != |b.path|;
    SecondIsReplayed(a, b, status, response);
  }
}
