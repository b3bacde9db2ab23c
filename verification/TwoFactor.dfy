/** The second factor of one account: its credential and its recovery codes. */
module TwoFactor {
  import opened Common

  const CODE_COUNT: nat := 10

  /** One batch of generated codes; normalised codes stand for their keyed hashes. */
  type Batch = codes: seq<string> | |codes| == CODE_COUNT witness seq(10, i => "")

  datatype Credential = Credential(confirmedAt: Option<Time>, disabledAt: Option<Time>, codes: map<string, Option<Time>>)

  /** The password check and the one-time-password check are answers from outside the model. */
  datatype Step =
    | Begin(passwordOk: bool, at: Time)
    | Confirm(totpOk: bool, batch: Batch, at: Time)
    | Verify(totpOk: bool, code: string, at: Time)
    | Regenerate(totpOk: bool, code: string, batch: Batch, at: Time)
    | Disable(passwordOk: bool, totpOk: bool, code: string, at: Time)

  datatype Run = Start | Then(before: Run, step: Step)

  predicate Enabled(c: Option<Credential>) {
    c.Some? && c.value.confirmedAt.Some? && c.value.disabledAt.None?
  }

  predicate TakesCode(c: Option<Credential>, totpOk: bool, code: string) {
    Enabled(c) && !totpOk && code in c.value.codes && c.value.codes[code].None?
  }

  predicate Verifies(c: Option<Credential>, totpOk: bool, code: string) {
    (Enabled(c) && totpOk) || TakesCode(c, totpOk, code)
  }

  function Spent(c: Option<Credential>, totpOk: bool, code: string, at: Time): Option<Credential> {
    if TakesCode(c, totpOk, code) then Some(c.value.(codes := c.value.codes[code := Some(at)])) else c
  }

  function Unused(batch: Batch): map<string, Option<Time>> {
    map code | code in batch :: None
  }

  /** Setup under way is thrown away; a credential that was confirmed, disabled or not, stays the only one. */
  function Begun(c: Option<Credential>): Option<Credential> {
    if c.Some? && c.value.confirmedAt.Some? then c else Some(Credential(None, None, map[]))
  }

  function Apply(c: Option<Credential>, step: Step): Option<Credential> {
    match step
    case Begin(passwordOk, _) => if passwordOk then Begun(c) else c
    case Confirm(totpOk, batch, at) =>
      if c.Some? && c.value.confirmedAt.None? && totpOk && NoDuplicates(batch)
      then Some(Credential(Some(at), None, Unused(batch))) else c
    case Verify(totpOk, code, at) => Spent(c, totpOk, code, at)
    case Regenerate(totpOk, code, batch, _) =>
      if Verifies(c, totpOk, code) && NoDuplicates(batch) then Some(c.value.(codes := Unused(batch))) else c
    case Disable(passwordOk, totpOk, code, at) =>
      if !passwordOk || !Verifies(c, totpOk, code) then c
      else
        var spent := Spent(c, totpOk, code, at).value;
        Some(spent.(disabledAt := Some(at),
                    codes := map k | k in spent.codes :: if spent.codes[k].None? then Some(at) else spent.codes[k]))
  }

  function StateOf(run: Run): Option<Credential> {
    match run
    case Start => None
    case Then(before, step) => Apply(StateOf(before), step)
  }

  /** The step replaces the recovery codes. */
  predicate Replaces(c: Option<Credential>, step: Step) {
    match step
    case Confirm(totpOk, batch, _) => c.Some? && c.value.confirmedAt.None? && totpOk && NoDuplicates(batch)
    case Regenerate(totpOk, code, batch, _) => Verifies(c, totpOk, code) && NoDuplicates(batch)
    case _ => false
  }

  /** The step commits on the strength of a recovery code. */
  predicate AcceptsCode(c: Option<Credential>, step: Step) {
    match step
    case Verify(totpOk, code, _) => TakesCode(c, totpOk, code)
    case Regenerate(totpOk, code, batch, _) => TakesCode(c, totpOk, code) && NoDuplicates(batch)
    case Disable(passwordOk, totpOk, code, _) => passwordOk && TakesCode(c, totpOk, code)
    case _ => false
  }

  // ---------------------------------------------------------------------------------------
  // Conservation
  // ---------------------------------------------------------------------------------------

  /** The codes accepted since the codes were last replaced, in order. */
  function SuccessesSinceReplacement(run: Run): seq<string> {
    match run
    case Start => []
    case Then(before, step) =>
      if Replaces(StateOf(before), step) then []
      else if AcceptsCode(StateOf(before), step) then SuccessesSinceReplacement(before) + [step.code]
      else SuccessesSinceReplacement(before)
  }

  /** All codes that were ever accepted, in order. */
  function Accepted(run: Run): seq<string> {
    match run
    case Start => []
    case Then(before, step) =>
      Accepted(before) + if AcceptsCode(StateOf(before), step) then [step.code] else []
  }

  predicate UsedAre(codes: map<string, Option<Time>>, used: seq<string>) {
    && NoDuplicates(used)
    && (forall code :: code in used ==> code in codes)
    && (forall code :: code in codes ==> (codes[code].Some? <==> code in used))
  }

  lemma {:induction false} BatchCount(batch: seq<string>, codes: set<string>)
    requires NoDuplicates(batch) && codes == set code | code in batch
    ensures |codes| == |batch|
  {
    if |batch| > 0 {
      var front, last := batch[..|batch| - 1], batch[|batch| - 1];
      assert batch == front + [last] && last !in front;
      assert codes - {last} == set code | code in front;
      BatchCount(front, codes - {last});
    }
  }

  predicate Conserved(c: Option<Credential>, used: seq<string>) {
    Enabled(c) ==> |c.value.codes| == 10 && UsedAre(c.value.codes, used)
  }

  lemma ReplacementConserves(batch: Batch)
    requires NoDuplicates(batch)
    ensures |Unused(batch)| == CODE_COUNT && UsedAre(Unused(batch), [])
  {
    BatchCount(batch, set code | code in batch);
    assert Unused(batch).Keys == set code | code in batch;
  }

  lemma SpendingConserves(c: Option<Credential>, code: string, at: Time, used: seq<string>)
    requires Conserved(c, used) && TakesCode(c, false, code)
    ensures Conserved(Spent(c, false, code, at), used + [code])
  {
    var spent := Spent(c, false, code, at).value.codes;
    assert code !in used;
    assert spent.Keys == c.value.codes.Keys;
  }

  /** In every reachable state an enabled credential has exactly ten codes, and the used ones are the
      successes since the last replacement, none of them counted twice. */
  lemma {:induction false} CodesAreConserved(run: Run)
    ensures Conserved(StateOf(run), SuccessesSinceReplacement(run))
  {
    if run.Then? {
      var c, step := StateOf(run.before), run.step;
      CodesAreConserved(run.before);
      if Replaces(c, step) {
        ReplacementConserves(step.batch);
      } else if step.Verify? && AcceptsCode(c, step) {
        SpendingConserves(c, step.code, step.at, SuccessesSinceReplacement(run.before));
      }
    }
  }

  // ---------------------------------------------------------------------------------------
  // Single use
  // ---------------------------------------------------------------------------------------

  function Generated(run: Run): set<string> {
    match run
    case Start => {}
    case Then(before, step) =>
      Generated(before) + if step.Confirm? || step.Regenerate? then set code | code in step.batch else {}
  }

  /** Codes of different batches are different. */
  predicate FreshBatches(run: Run) {
    match run
    case Start => true
    case Then(before, step) =>
      FreshBatches(before)
      && (step.Confirm? || step.Regenerate? ==> forall code :: code in step.batch ==> code !in Generated(before))
  }

  /** No accepted code can be accepted again, and all stored and accepted codes were generated. */
  predicate AcceptedAreSpent(c: Option<Credential>, accepted: seq<string>, generated: set<string>) {
    && (forall code :: code in accepted ==> code in generated)
    && (c.Some? ==> forall code :: code in c.value.codes ==>
                      code in generated && (code in accepted ==> c.value.codes[code].Some?))
  }

  lemma {:induction false} NoCodeIsAcceptedTwice(run: Run)
    requires FreshBatches(run)
    ensures NoDuplicates(Accepted(run))
    ensures AcceptedAreSpent(StateOf(run), Accepted(run), Generated(run))
  {
    if run.Then? {
      NoCodeIsAcceptedTwice(run.before);
    }
  }

  // ---------------------------------------------------------------------------------------
  // Disabling is final
  // ---------------------------------------------------------------------------------------

  predicate Extends(earlier: Run, run: Run) {
    earlier == run || (run.Then? && Extends(earlier, run.before))
  }

  predicate Disabled(c: Option<Credential>) {
    c.Some? && c.value.confirmedAt.Some? && c.value.disabledAt.Some?
  }

  /** After `disable` no step changes the credential, no set-up replaces it and no code is accepted. */
  lemma {:induction false} DisabledForGood(earlier: Run, run: Run, totpOk: bool, code: string)
    requires Extends(earlier, run) && Disabled(StateOf(earlier))
    ensures StateOf(run) == StateOf(earlier) && Accepted(run) == Accepted(earlier)
    ensures !Verifies(StateOf(run), totpOk, code)
  {
    if earlier != run {
      DisabledForGood(earlier, run.before, totpOk, code);
    }
  }

  // ---------------------------------------------------------------------------------------
  // When verification succeeds
  // ---------------------------------------------------------------------------------------

  /** What a history leaves an account with: no credential, a setup that waits for its confirmation, a second
      factor with the recovery codes not used yet, or one that was switched off. */
  datatype Standing = Nothing | Waiting | On(left: set<string>) | Off

  function InBatch(batch: Batch): set<string> {
    set code | code in batch
  }

  function StandingAfter(standing: Standing, step: Step): Standing {
    match (standing, step)
    case (Nothing, Begin(true, _)) => Waiting
    case (Waiting, Confirm(true, batch, _)) => if NoDuplicates(batch) then On(InBatch(batch)) else Waiting
    case (On(left), Verify(false, code, _)) => On(left - {code})
    case (On(left), Regenerate(totpOk, code, batch, _)) =>
      if (totpOk || code in left) && NoDuplicates(batch) then On(InBatch(batch)) else On(left)
    case (On(left), Disable(true, totpOk, code, _)) => if totpOk || code in left then Off else On(left)
    case _ => standing
  }

  function StandingOf(run: Run): Standing {
    match run
    case Start => Nothing
    case Then(before, step) => StandingAfter(StandingOf(before), step)
  }

  predicate StandsLike(c: Option<Credential>, standing: Standing) {
    match standing
    case Nothing => c == None
    case Waiting => c == Some(Credential(None, None, map[]))
    case On(left) =>
      c.Some? && c.value.confirmedAt.Some? && c.value.disabledAt.None?
      && left == set code | code in c.value.codes && c.value.codes[code].None?
    case Off => c.Some? && c.value.confirmedAt.Some? && c.value.disabledAt.Some?
  }

  lemma BatchIsUnused(batch: Batch)
    ensures InBatch(batch) == set code | code in Unused(batch) && Unused(batch)[code].None?
  {
  }

  lemma SpendingTakesCode(c: Option<Credential>, standing: Standing, code: string, at: Time)
    requires standing.On? && StandsLike(c, standing)
    ensures StandsLike(Spent(c, false, code, at), On(standing.left - {code}))
  {
  }

  lemma {:induction false} CredentialStands(run: Run)
    ensures StandsLike(StateOf(run), StandingOf(run))
  {
    if run.Then? {
      var c, standing, step := StateOf(run.before), StandingOf(run.before), run.step;
      CredentialStands(run.before);
      match step
      case Confirm(_, batch, _) => BatchIsUnused(batch);
      case Regenerate(_, _, batch, _) => BatchIsUnused(batch);
      case Verify(totpOk, code, at) =>
        if standing.On? && !totpOk {
          SpendingTakesCode(c, standing, code, at);
        }
      case _ =>
    }
  }

  /** The second factor of the account is on, and the one-time password is right or the code has not been used
      since it was handed out. */
  predicate Succeeds(standing: Standing, totpOk: bool, code: string) {
    standing.On? && (totpOk || code in standing.left)
  }

  /** After any run verification succeeds exactly when the history says so. */
  lemma VerifiesIff(run: Run, totpOk: bool, code: string)
    ensures Verifies(StateOf(run), totpOk, code) <==> Succeeds(StandingOf(run), totpOk, code)
    ensures TakesCode(StateOf(run), totpOk, code) <==> !totpOk && Succeeds(StandingOf(run), totpOk, code)
  {
    CredentialStands(run);
  }

  /** The codes handed out by the last step that replaced them. */
  function LastBatch(run: Run): set<string> {
    match run
    case Start => {}
    case Then(before, step) => if Replaces(StateOf(before), step) then InBatch(step.batch) else LastBatch(before)
  }

  /** The codes left are those last handed out without the successes since then. */
  lemma {:induction false} CodesLeft(run: Run)
    requires StandingOf(run).On?
    ensures StandingOf(run).left == set code | code in LastBatch(run) && code !in SuccessesSinceReplacement(run)
  {
    var before, step := run.before, run.step;
    CredentialStands(before);
    if StandingOf(before).On? && !Replaces(StateOf(before), step) {
      CodesLeft(before);
    }
  }

  // ---------------------------------------------------------------------------------------
  // The stored credential
  // ---------------------------------------------------------------------------------------

  datatype Result = Done | AuthenticationFailed | Conflict | NotFound | IntegrityError

  class TwoFactorStore {
    var credential: Option<Credential>
    ghost var log: Run

    ghost predicate Valid()
      reads this
    {
      credential == StateOf(log)
    }

    constructor ()
      ensures Valid() && log == Start
    {
      credential, log := None, Start;
    }

    method BeginSetup(passwordOk: bool, now: Time) returns (result: Result)
      requires Valid()
      modifies this
      ensures Valid() && log == Then(old(log), Begin(passwordOk, now))
      ensures result.Done? ==> credential == Some(Credential(None, None, map[]))
      ensures result.AuthenticationFailed? <==> !passwordOk
      ensures result.Conflict? <==> passwordOk && Enabled(old(credential))
      ensures result.IntegrityError? <==> passwordOk && Disabled(old(credential))
      ensures result != NotFound
    {
      log := Then(log, Begin(passwordOk, now));
      if !passwordOk {
        return AuthenticationFailed;
      }
      if credential.Some? && credential.value.confirmedAt.None? {
        credential := None;
      }
      if Enabled(credential) {
        return Conflict;
      }
      if credential.Some? {
        return IntegrityError;
      }
      credential := Some(Credential(None, None, map[]));
      result := Done;
    }

    /** The new rows of a batch, one by one; a repeated code breaks the unique constraint. */
    method ReplaceCodes(batch: Batch) returns (codes: Option<map<string, Option<Time>>>)
      ensures codes == if NoDuplicates(batch) then Some(Unused(batch)) else None
    {
      var rows: map<string, Option<Time>> := map[];
      for i := 0 to |batch|
        invariant rows == map code | code in batch[..i] :: None
        invariant NoDuplicates(batch[..i])
      {
        if batch[i] in rows {
          var j :| 0 <= j < i && batch[j] == batch[i];
          return None;
        }
        rows := rows[batch[i] := None];
        assert batch[..i + 1] == batch[..i] + [batch[i]];
      }
      assert batch[..|batch|] == batch;
      codes := Some(rows);
    }

    method ConfirmSetup(totpOk: bool, batch: Batch, now: Time) returns (result: Result)
      requires Valid()
      modifies this
      ensures Valid() && log == Then(old(log), Confirm(totpOk, batch, now))
      ensures result.Done? ==>
                && credential.Some? && credential.value.confirmedAt == Some(now) && credential.value.disabledAt == None
                && (forall k :: k in credential.value.codes <==> k in batch)
                && (forall k :: k in credential.value.codes ==> credential.value.codes[k] == None)
      ensures result.Done? <==> StandingOf(old(log)).Waiting? && totpOk && NoDuplicates(batch)
      ensures result.NotFound? <==> !StandingOf(old(log)).Waiting?
      ensures !result.Done? ==> credential == old(credential)
    {
      CredentialStands(log);
      log := Then(log, Confirm(totpOk, batch, now));
      if credential.None? || credential.value.confirmedAt.Some? {
        return NotFound;
      }
      if !totpOk {
        return AuthenticationFailed;
      }
      var codes := ReplaceCodes(batch);
      if codes.None? {
        return IntegrityError;
      }
      credential := Some(Credential(Some(now), None, codes.value));
      result := Done;
    }

    method VerifyCode(totpOk: bool, code: string, now: Time) returns (valid: bool, recovery: bool)
      modifies `credential
      ensures valid == Verifies(old(credential), totpOk, code)
      ensures recovery ==> Enabled(old(credential)) && !totpOk
      ensures valid && recovery <==> TakesCode(old(credential), totpOk, code)
      ensures credential == Spent(old(credential), totpOk, code, now)
      ensures valid && recovery ==>
                credential == Some(old(credential).value.(codes := old(credential).value.codes[code := Some(now)]))
      ensures !(valid && recovery) ==> credential == old(credential)
    {
      if !Enabled(credential) {
        return false, false;
      }
      if totpOk {
        return true, false;
      }
      var c := credential.value;
      if code !in c.codes || c.codes[code].Some? {
        return false, true;
      }
      credential := Some(c.(codes := c.codes[code := Some(now)]));
      return true, true;
    }

    /** The check at login. */
    method Check(totpOk: bool, code: string, now: Time) returns (valid: bool, recovery: bool)
      requires Valid()
      modifies this
      ensures Valid() && log == Then(old(log), Verify(totpOk, code, now))
      ensures valid <==> Succeeds(StandingOf(old(log)), totpOk, code)
      ensures valid && recovery <==> !totpOk && Succeeds(StandingOf(old(log)), totpOk, code)
      ensures StandingOf(old(log)).On? ==>
                StandingOf(log) == On(if totpOk then StandingOf(old(log)).left else StandingOf(old(log)).left - {code})
      ensures !StandingOf(old(log)).On? ==> credential == old(credential)
    {
      VerifiesIff(log, totpOk, code);
      CredentialStands(log);
      valid, recovery := VerifyCode(totpOk, code, now);
      log := Then(log, Verify(totpOk, code, now));
    }

    method RegenerateCodes(totpOk: bool, code: string, batch: Batch, now: Time) returns (result: Result)
      requires Valid()
      modifies this
      ensures Valid() && log == Then(old(log), Regenerate(totpOk, code, batch, now))
      ensures result.Done? <==> Succeeds(StandingOf(old(log)), totpOk, code) && NoDuplicates(batch)
      ensures result.AuthenticationFailed? <==> !Succeeds(StandingOf(old(log)), totpOk, code)
      ensures result.Done? ==>
                && Enabled(credential) && credential == Some(old(credential).value.(codes := credential.value.codes))
                && (forall k :: k in credential.value.codes <==> k in batch)
                && (forall k :: k in credential.value.codes ==> credential.value.codes[k] == None)
      ensures !result.Done? ==> credential == old(credential)
    {
      VerifiesIff(log, totpOk, code);
      log := Then(log, Regenerate(totpOk, code, batch, now));
      var before := credential;
      var valid, _ := VerifyCode(totpOk, code, now);
      if !valid {
        return AuthenticationFailed;
      }
      var codes := ReplaceCodes(batch);
      if codes.None? {
        credential := before;
        return IntegrityError;
      }
      credential := Some(credential.value.(codes := codes.value));
      result := Done;
    }

    method Disable(passwordOk: bool, totpOk: bool, code: string, now: Time) returns (result: Result)
      requires Valid()
      modifies this
      ensures Valid() && log == Then(old(log), Step.Disable(passwordOk, totpOk, code, now))
      ensures result.Done? <==> passwordOk && Succeeds(StandingOf(old(log)), totpOk, code)
      ensures result.Done? ==>
                && Disabled(credential) && credential.value.disabledAt == Some(now)
                && credential.value.codes.Keys == old(credential).value.codes.Keys
                && forall k :: k in credential.value.codes ==>
                     credential.value.codes[k]
                     == if old(credential).value.codes[k] == None then Some(now) else old(credential).value.codes[k]
      ensures !result.Done? ==> credential == old(credential)
    {
      VerifiesIff(log, totpOk, code);
      log := Then(log, Step.Disable(passwordOk, totpOk, code, now));
      if !passwordOk {
        return AuthenticationFailed;
      }
      var valid, _ := VerifyCode(totpOk, code, now);
      if !valid {
        return AuthenticationFailed;
      }
      var c := credential.value.(disabledAt := Some(now));
      credential := Some(c.(codes := map k | k in c.codes :: if c.codes[k].None? then Some(now) else c.codes[k]));
      result := Done;
    }
  }
}
