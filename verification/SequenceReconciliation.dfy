/** One confirmed repair of the operational sequence, and the operator command around it. */
module SequenceReconciliation {
  import opened Wrappers
  import opened OperationalSequence

  const RECONCILIATION_REVISION := "0028"
  const OPERATOR_CONFIRMATION := "RECONCILE-SEQ-OP-01"

  datatype Mutation = NoMutation | Executed | Unknown

  datatype Failure = Failure(code: Code, mutation: Mutation)

  datatype Outcome = Outcome(before: SequenceState, after: SequenceState, mutated: bool)

  /** How the server answers the one `setval`: an error before or after executing it, a result that
      is no integer, or an integer. */
  datatype SetvalAnswer = RefusedSetval | LateError | NoInteger | Returned(value: int)

  /** Everything the server and its clients decide: what the i-th revision read and the i-th
      inspection meet, the two locks, quiescence, `setval` and the connection itself. */
  datatype Answers = Answers(
    connects: bool, revision: nat -> Option<string>, locks: Option<Code>, activity: Option<Code>,
    inspection: nat -> Option<Code>, setval: SetvalAnswer, commits: bool, rollsBack: bool)

  // ---- What a reconciliation promises ----

  function RevisionProblem(a: Answers, expected: string, read: nat): Option<Code> {
    match a.revision(read)
    case None => Some(RevisionUnavailable)
    case Some(revision) => if revision == expected then None else Some(RevisionMismatch)
  }

  /** The first check to fail before the sequence is looked at: revision, locks, revision, activity. */
  function GateProblem(a: Answers, expected: string, quiescence: bool, from: nat): Option<Code> {
    if RevisionProblem(a, expected, from).Some? then RevisionProblem(a, expected, from)
    else if a.locks.Some? then a.locks
    else if RevisionProblem(a, expected, from + 1).Some? then RevisionProblem(a, expected, from + 1)
    else if quiescence then a.activity
    else None
  }

  /** The gates are passed when both reads of the revision give the one expected, the locks are taken
      and, where that is asked for, nothing else is active; and the first that is not is named. */
  lemma GatesMean(a: Answers, expected: string, quiescence: bool, from: nat)
    ensures GateProblem(a, expected, quiescence, from) == None
       <==> && a.revision(from) == Some(expected) && a.locks == None && a.revision(from + 1) == Some(expected)
            && (quiescence ==> a.activity == None)
    ensures a.revision(from) == None ==> GateProblem(a, expected, quiescence, from) == Some(RevisionUnavailable)
    ensures a.revision(from).Some? && a.revision(from) != Some(expected) ==>
              GateProblem(a, expected, quiescence, from) == Some(RevisionMismatch)
    ensures a.revision(from) == Some(expected) && a.locks.Some? ==>
              GateProblem(a, expected, quiescence, from) == a.locks
    ensures a.revision(from) == Some(expected) && a.locks == None && a.revision(from + 1) != Some(expected) ==>
              GateProblem(a, expected, quiescence, from)
              == Some(if a.revision(from + 1) == None then RevisionUnavailable else RevisionMismatch)
    ensures a.revision(from) == Some(expected) && a.locks == None && a.revision(from + 1) == Some(expected) && quiescence ==>
              GateProblem(a, expected, quiescence, from) == a.activity
  {
  }

  /** The reconciliation gets as far as asking for `setval`. */
  ghost predicate Reaches(s: Store, a: Answers, expected: string, quiescence: bool, from: nat) {
    GateProblem(a, expected, quiescence, from) == None && Inspect(s, a.inspection(0)).Ok? && !Safe(s)
  }

  /** The server sets the sequence. */
  ghost predicate Writes(s: Store, a: Answers, expected: string, quiescence: bool, from: nat) {
    Reaches(s, a, expected, quiescence, from) && !a.setval.RefusedSetval?
  }

  /** The write is confirmed by its own result and by both reads after it. */
  ghost predicate Confirms(s: Store, a: Answers, expected: string, from: nat)
    requires Inspect(s, None).Ok?
  {
    && a.setval == Returned(Inspect(s, None).value.safeAnchor) && a.inspection(1) == None
    && a.revision(from + 2) == Some(expected)
  }

  ghost predicate Succeeds(s: Store, a: Answers, expected: string, quiescence: bool, from: nat) {
    && GateProblem(a, expected, quiescence, from) == None && Inspect(s, a.inspection(0)).Ok?
    && (Safe(s) || Confirms(s, a, expected, from))
  }

  /** What goes wrong once the anchor has been asked for. */
  ghost function WriteFailure(anchor: int, a: Answers, from: nat): Failure {
    match a.setval
    case RefusedSetval => Failure(MutationUncertain, Unknown)
    case LateError => Failure(MutationUncertain, Unknown)
    case NoInteger => Failure(MutationReturnInvalid, Unknown)
    case Returned(value) =>
      if value != anchor then Failure(MutationReturnInvalid, Executed)
      else if a.inspection(1).Some? then Failure(a.inspection(1).value, NoMutation)
      else if a.revision(from + 2) == None then Failure(RevisionUnavailable, NoMutation)
      else Failure(RevisionChanged, Executed)
  }

  /** The failure of a reconciliation that does not succeed. */
  ghost function FailureOf(s: Store, a: Answers, expected: string, quiescence: bool, from: nat): Failure
    requires !Succeeds(s, a, expected, quiescence, from)
  {
    var problem, found := GateProblem(a, expected, quiescence, from), Inspect(s, a.inspection(0));
    if problem.Some? then Failure(problem.value, NoMutation)
    else if found.Err? then Failure(found.error, NoMutation)
    else WriteFailure(found.value.safeAnchor, a, from)
  }

  /** The result of a reconciliation of `s` that leaves `t`. */
  ghost predicate Reports(
    s: Store, t: Store, a: Answers, expected: string, quiescence: bool, from: nat, r: Result<Outcome, Failure>)
  {
    && (r.Ok? <==> Succeeds(s, a, expected, quiescence, from))
    && (r.Ok? ==>
          && Safe(t) && Inspect(s, None) == Ok(r.value.before) && Inspect(t, None) == Ok(r.value.after)
          && (r.value.mutated <==> !Safe(s)))
    && (r.Err? ==> r.error == FailureOf(s, a, expected, quiescence, from))
  }

  /** What a failure's mutation state is worth. "Executed" is always true. "None" is wrong exactly
      when the write went through and one of the two reads after it failed; "unknown" covers a
      `setval` that did not answer, of which all but a refusal wrote. */
  lemma MutationStateMeans(s: Store, a: Answers, expected: string, quiescence: bool, from: nat)
    requires !Succeeds(s, a, expected, quiescence, from)
    ensures var wrote := Writes(s, a, expected, quiescence, from);
            var state := FailureOf(s, a, expected, quiescence, from).mutation;
            && (state == Executed ==> wrote)
            && (state == NoMutation && wrote <==>
                  && Reaches(s, a, expected, quiescence, from)
                  && a.setval == Returned(Inspect(s, None).value.safeAnchor)
                  && (a.inspection(1).Some? || a.revision(from + 2) == None))
            && (state == Unknown <==> Reaches(s, a, expected, quiescence, from) && !a.setval.Returned?)
            && (state == Unknown ==> (wrote <==> !a.setval.RefusedSetval?))
  {
    if Inspect(s, a.inspection(0)).Ok? {
      AnchorRepairs(s);
    }
  }

  class Connection {
    var store: Store
    var setvals: nat
    var revisionReads: nat
    var inspections: nat
    const answers: Answers

    constructor (store: Store, answers: Answers)
      ensures this.store == store && this.answers == answers
      ensures setvals == 0 && revisionReads == 0 && inspections == 0
    {
      this.store, this.answers := store, answers;
      setvals, revisionReads, inspections := 0, 0, 0;
    }

    method DatabaseRevision() returns (r: Result<string, Failure>)
      modifies this`revisionReads
      ensures revisionReads == old(revisionReads) + 1
      ensures r == match answers.revision(old(revisionReads))
                   case Some(revision) => Ok(revision)
                   case None => Err(Failure(RevisionUnavailable, NoMutation))
    {
      var answer := answers.revision(revisionReads);
      revisionReads := revisionReads + 1;
      match answer
      case Some(revision) => r := Ok(revision);
      case None => r := Err(Failure(RevisionUnavailable, NoMutation));
    }

    method InspectSequence() returns (r: Result<SequenceState, Failure>)
      modifies this`inspections
      ensures inspections == old(inspections) + 1
      ensures r == match Inspect(store, answers.inspection(old(inspections)))
                   case Ok(state) => Ok(state)
                   case Err(code) => Err(Failure(code, NoMutation))
    {
      var found := Inspect(store, answers.inspection(inspections));
      inspections := inspections + 1;
      match found
      case Ok(state) => r := Ok(state);
      case Err(code) => r := Err(Failure(code, NoMutation));
    }

    /** The only write. A transaction's rollback does not undo it. */
    method SetSequenceValue(anchor: int) returns (r: Result<int, Failure>)
      modifies this`store, this`setvals
      ensures answers.setval.RefusedSetval? ==> store == old(store) && setvals == old(setvals)
      ensures !answers.setval.RefusedSetval? ==> store == SetVal(old(store), anchor) && setvals == old(setvals) + 1
      ensures r.Ok? <==> answers.setval.Returned?
      ensures r.Ok? ==> r.value == answers.setval.value
      ensures r.Err? ==>
                r.error == Failure(if answers.setval.NoInteger? then MutationReturnInvalid else MutationUncertain, Unknown)
    {
      if !answers.setval.RefusedSetval? {
        store, setvals := SetVal(store, anchor), setvals + 1;
      }
      match answers.setval
      case RefusedSetval => r := Err(Failure(MutationUncertain, Unknown));
      case LateError => r := Err(Failure(MutationUncertain, Unknown));
      case NoInteger => r := Err(Failure(MutationReturnInvalid, Unknown));
      case Returned(value) => r := Ok(value);
    }

    method RequireRevision(expected: string) returns (problem: Option<Code>)
      modifies this`revisionReads
      ensures revisionReads == old(revisionReads) + 1
      ensures problem == RevisionProblem(answers, expected, old(revisionReads))
    {
      var r := DatabaseRevision();
      if r.Err? {
        problem := Some(r.error.code);
      } else if r.value != expected {
        problem := Some(RevisionMismatch);
      } else {
        problem := None;
      }
    }

    /** Revision, both locks, revision again, and quiescence where it is required. */
    method PassGates(expected: string, quiescence: bool) returns (problem: Option<Code>)
      modifies this`revisionReads
      ensures problem == GateProblem(answers, expected, quiescence, old(revisionReads))
      ensures problem == None ==> revisionReads == old(revisionReads) + 2
    {
      problem := RequireRevision(expected);
      if problem.Some? { return; }
      if answers.locks.Some? { return answers.locks; }
      problem := RequireRevision(expected);
      if problem.Some? { return; }
      if quiescence { return answers.activity; }
    }

    /** Repairs the sequence once: it is set exactly when the inspected store is not safe and the
        server executes the request, and then to the anchor. */
    method Reconcile(expected: string, quiescence: bool) returns (r: Result<Outcome, Failure>)
      requires inspections == 0
      modifies this
      ensures RepairStep(old(store), setvals == old(setvals) + 1, store)
      ensures setvals == old(setvals)
                         + if Writes(old(store), answers, expected, quiescence, old(revisionReads)) then 1 else 0
      ensures Reports(old(store), store, answers, expected, quiescence, old(revisionReads), r)
      ensures r.Ok? ==> revisionReads == old(revisionReads) + if r.value.mutated then 3 else 2
    {
      ghost var s, first := store, revisionReads;
      var problem := PassGates(expected, quiescence);
      if problem.Some? {
        return Err(Failure(problem.value, NoMutation));
      }
      var inspected := InspectSequence();
      if inspected.Err? {
        return Err(inspected.error);
      }
      var before := inspected.value;
      SafeIffReconciled(s);
      if before.ReconciledSafe() {
        return Ok(Outcome(before, before, false));
      }
      AnchorRepairs(s);
      r := ApplyAnchor(expected, before, first);
    }

    /** From the anchor to the result: set, compare, inspect again and read the revision again. */
    method ApplyAnchor(expected: string, before: SequenceState, ghost first: nat) returns (r: Result<Outcome, Failure>)
      requires Inspect(store, None) == Ok(before) && !Safe(store)
      requires inspections == 1 && revisionReads == first + 2
      modifies this
      ensures setvals == old(setvals) + if answers.setval.RefusedSetval? then 0 else 1
      ensures store == if answers.setval.RefusedSetval? then old(store) else SetVal(old(store), before.safeAnchor)
      ensures r.Ok? <==> Confirms(old(store), answers, expected, first)
      ensures r.Ok? ==> r.value.mutated && r.value.before == before && Inspect(store, None) == Ok(r.value.after)
      ensures r.Ok? ==> revisionReads == first + 3
      ensures r.Err? ==> r.error == WriteFailure(before.safeAnchor, answers, first)
    {
      var anchor := before.safeAnchor;
      AnchorRepairs(store);
      if anchor < before.lastValue {
        return Err(Failure(WouldDecrease, NoMutation));
      }
      if anchor >= MAXIMUM {
        return Err(Failure(SafeAnchorOutOfRange, NoMutation));
      }
      var returned := SetSequenceValue(anchor);
      if returned.Err? {
        return Err(returned.error);
      }
      if returned.value != anchor {
        return Err(Failure(MutationReturnInvalid, Executed));
      }
      var inspected := InspectSequence();
      if inspected.Err? {
        return Err(inspected.error);
      }
      var after := inspected.value;
      if after.lastValue != anchor || !after.isCalled || after.candidate != anchor + 1 || !after.CandidateSafe() {
        return Err(Failure(PostconditionInvalid, Executed));
      }
      var revision := DatabaseRevision();
      if revision.Err? {
        return Err(revision.error);
      }
      if revision.value != expected {
        return Err(Failure(RevisionChanged, Executed));
      }
      return Ok(Outcome(before, after, true));
    }
  }

  // ---- The operator command ----

  datatype Mode = Check | Apply | OtherMode

  datatype Status = SafeStatus | Vulnerable | ReconciledStatus | Blocked

  /** `ok` also stands for the receipt's contract, relation, singleton and revision flags. */
  datatype Receipt = Receipt(
    mode: Mode, ok: bool, status: Status, candidateSafe: bool, isCalled: bool, mutation: Mutation,
    setvalCount: nat, quiescent: bool, code: Option<Code>)

  function SetvalCount(m: Mutation): nat {
    if m == Executed then 1 else 0
  }

  function SuccessReceipt(mode: Mode, status: Status, state: SequenceState, m: Mutation, quiescent: bool): Receipt {
    Receipt(mode, true, status, state.CandidateSafe(), state.isCalled, m, SetvalCount(m), quiescent, None)
  }

  function BlockedReceipt(mode: Mode, f: Failure): Receipt {
    Receipt(mode, false, Blocked, false, false, f.mutation, SetvalCount(f.mutation), false, Some(f.code))
  }

  function OptionsProblem(mode: Mode, confirmation: Option<string>, attested: bool): Option<Code> {
    match mode
    case OtherMode => Some(OperatorModeInvalid)
    case Apply =>
      if confirmation != Some(OPERATOR_CONFIRMATION) then Some(ConfirmationRequired)
      else if !attested then Some(AttestationRequired)
      else None
    case Check => if confirmation.Some? || attested then Some(CheckOptionsInvalid) else None
  }

  /** The refusal of arguments: an unknown mode; an apply that is not confirmed word for word, or else
      not attested; a check that is given either. */
  ghost function Refusal(mode: Mode, confirmation: Option<string>, attested: bool): Option<Code> {
    if mode != Apply && mode != Check then Some(OperatorModeInvalid)
    else if mode == Check && (confirmation.Some? || attested) then Some(CheckOptionsInvalid)
    else if mode == Apply && confirmation != Some("RECONCILE-SEQ-OP-01") then Some(ConfirmationRequired)
    else if mode == Apply && !attested then Some(AttestationRequired)
    else None
  }

  lemma OptionsRefused(mode: Mode, confirmation: Option<string>, attested: bool)
    ensures OptionsProblem(mode, confirmation, attested) == Refusal(mode, confirmation, attested)
  {
  }

  /** The apply transaction succeeds. */
  ghost predicate ApplySucceeds(s: Store, a: Answers) {
    && a.revision(0) == Some(RECONCILIATION_REVISION) && Succeeds(s, a, RECONCILIATION_REVISION, true, 1)
    && a.revision(if Safe(s) then 3 else 4) == Some(RECONCILIATION_REVISION) && a.commits
  }

  ghost predicate ApplyWrites(s: Store, a: Answers) {
    a.revision(0).Some? && Writes(s, a, RECONCILIATION_REVISION, true, 1)
  }

  /** A read after the confirmed write fails before any reads back a different revision. */
  ghost predicate LosesTrack(s: Store, a: Answers) {
    && ApplyWrites(s, a) && a.setval == Returned(Inspect(s, None).value.safeAnchor)
    && (|| a.inspection(1).Some? || a.revision(3) == None
        || (a.revision(3) == Some(RECONCILIATION_REVISION) && a.revision(4) == None))
  }

  /** An apply writes when revisions, locks, quiescence and inspection let it and the sequence is not
      safe; it succeeds when besides the write, if any, and the reads that follow confirm the anchor and
      all revisions read are the one known. */
  lemma ApplyMeans(s: Store, a: Answers)
    ensures ApplyWrites(s, a)
       <==> && a.revision(0) != None && a.revision(1) == Some("0028") && a.revision(2) == Some("0028")
            && a.locks == None && a.activity == None && Inspect(s, a.inspection(0)).Ok?
            && !Safe(s) && a.setval != RefusedSetval
    ensures ApplySucceeds(s, a)
       <==> && a.commits && a.locks == None && a.activity == None && Inspect(s, a.inspection(0)).Ok?
            && (forall i: nat :: i <= 3 ==> a.revision(i) == Some("0028"))
            && (!Safe(s) ==> && a.setval == Returned(Inspect(s, None).value.safeAnchor)
                             && a.inspection(1) == None && a.revision(4) == Some("0028"))
    ensures LosesTrack(s, a) ==> !ApplySucceeds(s, a) && (a.inspection(1) != None || a.revision(3) == None || a.revision(4) == None)
  {
  }

  /** The apply transaction, from its first revision read to the commit. */
  method ApplyOnce(connection: Connection) returns (r: Result<Receipt, Failure>)
    requires connection.revisionReads == 0 && connection.inspections == 0
    modifies connection
    ensures var s, t, a := old(connection.store), connection.store, connection.answers;
            var wrote := connection.setvals == old(connection.setvals) + 1;
            && RepairStep(s, wrote, t)
            && connection.setvals == old(connection.setvals) + (if ApplyWrites(s, a) then 1 else 0)
            && (r.Ok? <==> ApplySucceeds(s, a))
            && (r.Ok? ==>
                  && Safe(t) && Inspect(t, None).Ok?
                  && r.value == SuccessReceipt(Apply, if wrote then ReconciledStatus else SafeStatus,
                                               Inspect(t, None).value, if wrote then Executed else NoMutation, true))
            && (r.Err? ==>
                  && (r.error.mutation == Executed ==> wrote)
                  && (r.error.mutation == NoMutation && wrote <==> LosesTrack(s, a)))
  {
    ghost var s, a := connection.store, connection.answers;
    var before := connection.DatabaseRevision();
    if before.Err? {
      return Err(before.error);
    }
    var result := connection.Reconcile(RECONCILIATION_REVISION, true);
    if result.Err? {
      MutationStateMeans(s, a, RECONCILIATION_REVISION, true, 1);
      return Err(result.error);
    }
    var after := connection.DatabaseRevision();
    if after.Err? {
      return Err(after.error);
    }
    var mutation := if result.value.mutated then Executed else NoMutation;
    if before.value != RECONCILIATION_REVISION || after.value != before.value {
      return Err(Failure(RevisionChanged, mutation));
    }
    if !connection.answers.commits {
      return Err(Failure(InternalError, Unknown));
    }
    var status := if result.value.mutated then ReconciledStatus else SafeStatus;
    return Ok(SuccessReceipt(Apply, status, result.value.after, mutation, true));
  }

  /** One operator command on a new connection. The sequence changes only in a confirmed apply of
      an unsafe store, and then to its anchor. A successful receipt counts the writes exactly, and
      says whether the store is safe; a blocked one never counts a write that did not happen, and
      says "none" for one that did exactly when a read after it failed and the rollback went through. */
  method ExecuteOperator(connection: Connection, mode: Mode, confirmation: Option<string>, attested: bool)
    returns (receipt: Receipt)
    requires connection.revisionReads == 0 && connection.inspections == 0
    modifies connection
    ensures var s, t, a := old(connection.store), connection.store, connection.answers;
            var wrote := connection.setvals == old(connection.setvals) + 1;
            var proceeds := OptionsProblem(mode, confirmation, attested) == None && a.connects;
            && RepairStep(s, wrote, t)
            && connection.setvals
               == old(connection.setvals) + (if proceeds && mode == Apply && ApplyWrites(s, a) then 1 else 0)
            // Nothing is changed, and no apply succeeds, without the confirmation and the attestation.
            && (wrote || (receipt.ok && mode == Apply) ==>
                  mode == Apply && confirmation == Some("RECONCILE-SEQ-OP-01") && attested)
            // Arguments that are refused are refused before anything is asked of the server.
            && (Refusal(mode, confirmation, attested).Some? ==>
                  && t == s && connection.revisionReads == 0 && connection.inspections == 0
                  && !receipt.ok && receipt.code == Refusal(mode, confirmation, attested))
            && (receipt.ok <==>
                  proceeds && if mode == Check then Inspect(s, a.inspection(0)).Ok? && a.commits else ApplySucceeds(s, a))
            && receipt.mode == (if mode == Apply then Apply else Check)
            && (receipt.ok ==>
                  && receipt.code == None && (receipt.quiescent <==> mode == Apply)
                  && receipt.setvalCount == connection.setvals - old(connection.setvals)
                  && (receipt.mutation == Executed <==> wrote) && receipt.mutation != Unknown
                  && receipt.status == (if wrote then ReconciledStatus else if Safe(t) then SafeStatus else Vulnerable)
                  && receipt.candidateSafe == Inspect(t, None).value.CandidateSafe() && receipt.isCalled == t.called)
            && (!receipt.ok ==>
                  && receipt.status == Blocked && receipt.code.Some?
                  && !receipt.candidateSafe && !receipt.isCalled && !receipt.quiescent
                  && receipt.setvalCount == (if receipt.mutation == Executed then 1 else 0)
                  && receipt.setvalCount <= connection.setvals - old(connection.setvals)
                  && (receipt.mutation == NoMutation && wrote <==>
                        proceeds && mode == Apply && LosesTrack(s, a) && a.rollsBack))
  {
    OptionsRefused(mode, confirmation, attested);
    var problem := OptionsProblem(mode, confirmation, attested);
    if problem.Some? {
      return BlockedReceipt(if mode == OtherMode then Check else mode, Failure(problem.value, NoMutation));
    }
    if !connection.answers.connects {
      return BlockedReceipt(mode, Failure(InternalError, Unknown));
    }
    if mode == Check {
      ghost var s := connection.store;
      var state := connection.InspectSequence();
      if state.Err? {
        return BlockedReceipt(mode, AfterRollback(state.error, connection.answers.rollsBack));
      }
      if !connection.answers.commits {
        return BlockedReceipt(mode, Failure(InternalError, Unknown));
      }
      SafeIffReconciled(s);
      var status := if state.value.ReconciledSafe() then SafeStatus else Vulnerable;
      return SuccessReceipt(mode, status, state.value, NoMutation, false);
    }
    var r := ApplyOnce(connection);
    match r
    case Ok(success) => receipt := success;
    case Err(failure) =>
      receipt := BlockedReceipt(mode, AfterRollback(failure, connection.answers.rollsBack));
  }

  /** A rollback that raises hides the failure it follows. */
  function AfterRollback(f: Failure, rollsBack: bool): Failure {
    if rollsBack then f else Failure(InternalError, Unknown)
  }

  /** Answers under which the one `setval` is confirmed and the inspection after it fails. */
  const TRACK_LOST := Answers(
    true, i => Some(RECONCILIATION_REVISION), None, None, i => if i == 1 then Some(StateUnavailable) else None,
    Returned(1), true, true)

  /** Run on the store as the first migration left it, the operator sets the sequence and reports
      that nothing was changed. */
  method ReceiptDeniesWrite() returns (after: Store, receipt: Receipt)
    ensures after == SetVal(AFTER_MIGRATION, 1) && after != AFTER_MIGRATION
    ensures receipt.status == Blocked && receipt.mutation == NoMutation && receipt.setvalCount == 0
  {
    var connection := new Connection(AFTER_MIGRATION, TRACK_LOST);
    ghost var s, a := AFTER_MIGRATION, TRACK_LOST;
    assert Inspect(s, None).Ok? && Inspect(s, None).value.safeAnchor == 1 && !Safe(s);
    assert GateProblem(a, RECONCILIATION_REVISION, true, 1) == None;
    assert ApplyWrites(s, a) && LosesTrack(s, a);
    receipt := ExecuteOperator(connection, Apply, Some(OPERATOR_CONFIRMATION), true);
    after := connection.store;
  }
}
