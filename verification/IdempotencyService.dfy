/** The decorator around a view method, over the stored records. */
module IdempotencyService {
  import opened Common
  import opened Idempotency

  const MAX_KEY_LENGTH := 255

  datatype WrappedResult = NotWrapped | AuthenticationRequired | InvalidKey | Wrapped(reply: Reply)

  class IdempotencyStore {
    var records: map<Slot, Record>
    var txs: map<nat, Tx>
    var effects: seq<Effect>
    var answers: map<nat, Answer>
    ghost var log: Run

    function View(): State
      reads this
    {
      State(records, txs, effects, answers)
    }

    ghost predicate Valid()
      reads this
    {
      View() == StateOf(log)
    }

    constructor ()
      ensures Valid() && log == Start
    {
      records, txs, effects, answers, log := map[], map[], [], map[], Start;
    }

    method Reply(t: nat, request: Request, since: nat, reply: Idempotency.Reply)
      modifies `txs, `answers
      ensures View() == Answered(old(View()), t, request, since, reply)
    {
      txs := txs - {t};
      answers := answers[t := Answer(request, since, reply)];
    }

    /** Nothing is recorded under the key: the record is created, still without a response. */
    method Create(t: nat, request: Request)
      requires Valid() && t !in txs && t !in answers
      requires SlotOf(request) !in records && !Held(View(), t, SlotOf(request))
      modifies `txs, `log
      ensures Valid() && txs == old(txs)[t := Tx(request, Inserted, |effects|)]
    {
      txs := txs[t := Tx(request, Looked, |effects|)];
      log := Then(log, Begin(t, request));
      assert Valid();
      txs := txs[t := Tx(request, Inserted, |effects|)];
      log := Then(log, Insert(t));
    }

    /** The method has returned: the response is saved and the transaction commits. */
    method Complete(t: nat, status: int, body: string)
      requires Valid() && t in txs && txs[t].phase.Inserted?
      modifies this
      ensures Valid() && txs == old(txs) - {t} && View() == Apply(Apply(old(View()), Execute(t, Returned(status, body))), Commit(t))
    {
      var Tx(request, _, since) := txs[t];
      txs := txs[t := Tx(request, Ran(status, body), since)];
      log := Then(log, Execute(t, Returned(status, body)));
      assert Valid();
      records := records[SlotOf(request) := Record(Text(request), Some(status), body)];
      effects := effects + [Effect(t, request, status, body)];
      log := Then(log, Commit(t));
      Reply(t, request, since, Fresh(status, body));
    }

    /** The transaction of a request that no other open transaction makes wait, run through in one go. */
    method Transact(t: nat, request: Request, outcome: Outcome) returns (reply: Idempotency.Reply)
      requires Valid() && t !in txs && t !in answers && !Held(View(), t, SlotOf(request))
      modifies this
      ensures Valid() && t in answers && answers[t].reply == reply && txs == old(txs)
      ensures SlotOf(request) in old(records) ==>
                reply == Lookup(old(records)[SlotOf(request)], request) && records == old(records) && effects == old(effects)
      ensures SlotOf(request) !in old(records) && outcome.Returned? ==>
                && reply == Fresh(outcome.status, outcome.body)
                && effects == old(effects) + [Effect(t, request, outcome.status, outcome.body)]
                && records == old(records)[SlotOf(request) := Record(Text(request), Some(outcome.status), outcome.body)]
      ensures SlotOf(request) !in old(records) && !outcome.Returned? ==>
                reply == Raised && records == old(records) && effects == old(effects)
    {
      if SlotOf(request) in records {
        reply := Lookup(records[SlotOf(request)], request);
        log := Then(log, Begin(t, request));
        Reply(t, request, |effects|, reply);
        return;
      }
      Create(t, request);
      if outcome.Returned? {
        Complete(t, outcome.status, outcome.body);
        reply := Fresh(outcome.status, outcome.body);
      } else {
        log := Then(log, Execute(t, outcome));
        Reply(t, request, |effects|, Raised);
        reply := Raised;
      }
    }

    method Handle(t: nat, authenticated: bool, request: Request, outcome: Outcome) returns (result: WrappedResult)
      requires Valid() && t !in txs && t !in answers && !Held(View(), t, SlotOf(request))
      modifies this
      ensures Valid()
      ensures result.NotWrapped? <==> request.key == ""
      ensures result.AuthenticationRequired? <==> request.key != "" && !authenticated
      ensures result.InvalidKey? <==> authenticated && |request.key| > 255
      ensures !result.Wrapped? ==> View() == old(View())
      ensures result.Wrapped? ==> t in answers && answers[t].reply == result.reply && txs == old(txs)
      ensures result.Wrapped? && SlotOf(request) in old(records) ==>
                && result.reply == Lookup(old(records)[SlotOf(request)], request)
                && records == old(records) && effects == old(effects)
      ensures result.Wrapped? && SlotOf(request) !in old(records) && outcome.Returned? ==>
                && result.reply == Fresh(outcome.status, outcome.body)
                && effects == old(effects) + [Effect(t, request, outcome.status, outcome.body)]
                && records == old(records)[SlotOf(request) := Record(Text(request), Some(outcome.status), outcome.body)]
      ensures result.Wrapped? && SlotOf(request) !in old(records) && !outcome.Returned? ==>
                result.reply == Raised && records == old(records) && effects == old(effects)
    {
      if request.key == "" {
        return NotWrapped;
      }
      if !authenticated {
        return AuthenticationRequired;
      }
      if |request.key| > MAX_KEY_LENGTH {
        return InvalidKey;
      }
      var reply := Transact(t, request, outcome);
      result := Wrapped(reply);
    }
  }
}
