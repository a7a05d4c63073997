/** The database sequence behind the identifiers of the operational singleton table: what
    `nextval`, `setval` and default inserts do to it, and what its inspection finds. */
module OperationalSequence {
  import opened Wrappers

  const MINIMUM := 1
  const MAXIMUM := 2_147_483_647

  /** The sequence's two columns and the ids in the table. A rolled back transaction loses its
      rows but never moves the sequence back. */
  datatype Store = Store(last: int, called: bool, rows: seq<int>)

  predicate InRange(n: int) {
    MINIMUM <= n <= MAXIMUM
  }

  /** What `nextval` would return. */
  function Next(s: Store): int {
    if s.called then s.last + 1 else s.last
  }

  /** `setval(anchor, true)`. */
  function SetVal(s: Store, anchor: int): Store {
    s.(last := anchor, called := true)
  }

  // ---- Inserts that take the default id ----

  datatype Drawn = Exhausted | Collided(id: int) | Inserted(id: int)

  /** One insert with a default id, in a transaction that is committed or rolled back. */
  function DefaultInsert(s: Store, committed: bool): (Store, Drawn) {
    var id := Next(s);
    if id > MAXIMUM then (s, Exhausted)
    else
      var moved := SetVal(s, id);
      if id in s.rows then (moved, Collided(id))
      else (if committed then moved.(rows := s.rows + [id]) else moved, Inserted(id))
  }

  function Inserts(s: Store, commits: seq<bool>): (r: (Store, seq<Drawn>))
    ensures |r.1| == |commits|
  {
    if commits == [] then (s, [])
    else
      var (before, drawn) := Inserts(s, commits[..|commits| - 1]);
      var (after, d) := DefaultInsert(before, commits[|commits| - 1]);
      (after, drawn + [d])
  }

  function Expected(s: Store, i: nat): Drawn {
    var id := Next(s) + i;
    if id > MAXIMUM then Exhausted else if id in s.rows then Collided(id) else Inserted(id)
  }

  function Least(a: int, b: int): int {
    if a < b then a else b
  }

  /** A run of inserts draws consecutive ids, whatever is rolled back, and collides exactly where
      the run meets an id that was in the table before it. */
  lemma {:induction false} InsertsDrawConsecutively(s: Store, commits: seq<bool>)
    requires InRange(s.last)
    ensures var (after, drawn) := Inserts(s, commits);
            && InRange(after.last) && Next(after) == Least(Next(s) + |commits|, MAXIMUM + 1)
            && (forall i :: 0 <= i < |commits| ==> drawn[i] == Expected(s, i))
            && (forall id :: id in s.rows ==> id in after.rows)
            && (forall id :: id in after.rows ==> id in s.rows || Next(s) <= id < Next(after))
  {
    if commits != [] {
      InsertsDrawConsecutively(s, commits[..|commits| - 1]);
    }
  }

  /** Exactly the inserts that were committed and did not collide leave their row. */
  lemma {:induction false} InsertsLeaveRows(s: Store, commits: seq<bool>, id: int)
    ensures var (after, drawn) := Inserts(s, commits);
            id in after.rows <==>
              id in s.rows || exists i :: 0 <= i < |commits| && commits[i] && drawn[i] == Inserted(id)
  {
    if commits != [] {
      var front, last := commits[..|commits| - 1], |commits| - 1;
      InsertsLeaveRows(s, front, id);
      var (before, drawn) := Inserts(s, front);
      var (after, all) := Inserts(s, commits);
      assert forall i :: 0 <= i < last ==> all[i] == drawn[i] && commits[i] == front[i];
      if exists i :: 0 <= i < |commits| && commits[i] && all[i] == Inserted(id) {
        var i :| 0 <= i < |commits| && commits[i] && all[i] == Inserted(id);
        assert i < last ==> front[i] && drawn[i] == Inserted(id);
      }
      assert id in after.rows <==> id in before.rows || (commits[last] && all[last] == Inserted(id));
    }
  }

  ghost predicate NeverCollides(s: Store) {
    forall commits, i :: 0 <= i < |commits| ==> !Inserts(s, commits).1[i].Collided?
  }

  /** No run of inserts ever collides, exactly when no id in the table lies between the next value
      and the maximum. */
  lemma NeverCollidesIff(s: Store)
    requires InRange(s.last)
    ensures NeverCollides(s) <==> forall id :: id in s.rows ==> id < Next(s) || id > MAXIMUM
  {
    if forall id :: id in s.rows ==> id < Next(s) || id > MAXIMUM {
      forall commits: seq<bool>, i | 0 <= i < |commits| ensures !Inserts(s, commits).1[i].Collided? {
        InsertsDrawConsecutively(s, commits);
      }
    }
    forall id | id in s.rows && Next(s) <= id <= MAXIMUM ensures !NeverCollides(s) {
      var commits := seq(id - Next(s) + 1, i => true);
      InsertsDrawConsecutively(s, commits);
      assert Inserts(s, commits).1[id - Next(s)] == Expected(s, id - Next(s));
    }
  }

  // ---- Inspection ----

  datatype Code =
    | RevisionUnavailable | RevisionMismatch | RevisionChanged | LockUnavailable | NotQuiescent
    | ContractInvalid | StateUnavailable | SingletonEmpty | SingletonMultiple | ValueOutOfRange
    | SafeAnchorOutOfRange | WouldDecrease | MutationUncertain | MutationReturnInvalid | PostconditionInvalid
    | OperatorModeInvalid | ConfirmationRequired | AttestationRequired | CheckOptionsInvalid | InternalError

  datatype SequenceState = SequenceState(
    lastValue: int, isCalled: bool, rowCount: nat, columnMaximum: int, candidate: int, safeAnchor: int)
  {
    predicate CandidateSafe() {
      candidate > columnMaximum && candidate <= MAXIMUM
    }

    predicate ReconciledSafe() {
      isCalled && CandidateSafe()
    }
  }

  function MaxRow(rows: seq<int>): (m: int)
    requires rows != []
    ensures m in rows && forall id :: id in rows ==> id <= m
  {
    if |rows| == 1 then rows[0]
    else
      var m := MaxRow(rows[1..]);
      assert rows == [rows[0]] + rows[1..];
      if m < rows[0] then rows[0] else m
  }

  /** `trouble` is what the catalogue checks or the two reads fail with, if they do. */
  function Inspect(s: Store, trouble: Option<Code>): Result<SequenceState, Code> {
    if trouble.Some? then Err(trouble.value)
    else if |s.rows| == 0 then Err(SingletonEmpty)
    else if |s.rows| != 1 then Err(SingletonMultiple)
    else
      var most := MaxRow(s.rows);
      if !InRange(s.last) || !InRange(most) then Err(ValueOutOfRange)
      else
        var candidate := if !s.called then s.last else s.last + 1;
        var anchor := if s.last < most then most else s.last;
        if anchor >= MAXIMUM then Err(SafeAnchorOutOfRange)
        else Ok(SequenceState(s.last, s.called, |s.rows|, most, candidate, anchor))
  }

  /** What makes a store safe: the sequence has been drawn from and its next value is above every id. */
  ghost predicate Safe(s: Store) {
    InRange(s.last) && s.called && Next(s) <= MAXIMUM && forall id :: id in s.rows ==> id < Next(s)
  }

  lemma SafeIffReconciled(s: Store)
    requires Inspect(s, None).Ok?
    ensures Inspect(s, None).value.ReconciledSafe() <==> Safe(s)
  {
  }

  /** Setting the sequence to the anchor of an inspected store: the sequence and its next value
      never go down, the result passes inspection as safe, and no run of inserts collides again. */
  lemma AnchorRepairs(s: Store)
    requires Inspect(s, None).Ok?
    ensures var anchor := Inspect(s, None).value.safeAnchor;
            var t := SetVal(s, anchor);
            && s.last <= t.last && Next(s) <= Next(t) && t.rows == s.rows && Safe(t) && NeverCollides(t)
            && Inspect(t, None).Ok?
            && var found := Inspect(t, None).value;
               found.lastValue == anchor && found.isCalled && found.candidate == anchor + 1 && found.ReconciledSafe()
  {
    var t := SetVal(s, Inspect(s, None).value.safeAnchor);
    NeverCollidesIff(t);
  }

  /** The table's first migration inserted id 1 explicitly, leaving the sequence at its start. */
  const AFTER_MIGRATION := Store(1, false, [1])

  /** So the first default insert collides; once repaired, the next id is 2. */
  lemma MigrationHazard()
    ensures DefaultInsert(AFTER_MIGRATION, true).1 == Collided(1)
    ensures Inspect(AFTER_MIGRATION, None).Ok? && !Inspect(AFTER_MIGRATION, None).value.CandidateSafe()
    ensures DefaultInsert(SetVal(AFTER_MIGRATION, Inspect(AFTER_MIGRATION, None).value.safeAnchor), true).1 == Inserted(2)
  {
    assert MaxRow([1]) == 1;
  }

  // ---- Runs of repairs and inserts ----

  datatype Event = Repair(wrote: bool) | Insert(committed: bool)

  /** A repair writes the anchor of an inspected store that was not safe, or nothing. */
  ghost predicate RepairStep(s: Store, wrote: bool, t: Store) {
    if wrote then Inspect(s, None).Ok? && !Safe(s) && t == SetVal(s, Inspect(s, None).value.safeAnchor)
    else t == s
  }

  ghost predicate Step(s: Store, e: Event, t: Store) {
    match e
    case Repair(wrote) => RepairStep(s, wrote, t)
    case Insert(committed) => t == DefaultInsert(s, committed).0
  }

  ghost predicate Run(stores: seq<Store>, events: seq<Event>) {
    && |stores| == |events| + 1
    && InRange(stores[0].last)
    && forall i :: 0 <= i < |events| ==> Step(stores[i], events[i], stores[i + 1])
  }

  /** Above every id, though possibly exhausted. */
  ghost predicate Settled(s: Store) {
    InRange(s.last) && s.called && forall id :: id in s.rows ==> id < Next(s)
  }

  lemma StepKeeps(s: Store, e: Event, t: Store)
    requires InRange(s.last) && Step(s, e, t)
    ensures InRange(t.last) && s.last <= t.last && Next(s) <= Next(t)
    ensures e.Insert? && Next(s) <= MAXIMUM ==> Next(t) == Next(s) + 1
    ensures Settled(s) ==> Settled(t) && !(e.Repair? && e.wrote)
    ensures e.Repair? && e.wrote ==> Settled(t)
  {
    if e.Repair? && e.wrote {
      AnchorRepairs(s);
    }
  }

  lemma {:induction false} RunKeeps(stores: seq<Store>, events: seq<Event>, i: nat, j: nat)
    requires Run(stores, events) && i <= j < |stores|
    ensures InRange(stores[i].last) && InRange(stores[j].last)
    ensures stores[i].last <= stores[j].last && Next(stores[i]) <= Next(stores[j])
    ensures Settled(stores[i]) ==> Settled(stores[j])
    decreases j
  {
    if j > 0 {
      RunKeeps(stores, events, if i < j then i else j - 1, j - 1);
      StepKeeps(stores[j - 1], events[j - 1], stores[j]);
    }
  }

  /** Over any run of repairs and inserts, committed or not: the sequence is set at most once. */
  lemma SetAtMostOnce(stores: seq<Store>, events: seq<Event>, i: nat, j: nat)
    requires Run(stores, events) && i < |events| && j < |events|
    requires events[i] == Repair(true) && events[j] == Repair(true)
    ensures i == j
  {
    if i < j {
      WritesSettle(stores, events, i, j);
    } else if j < i {
      WritesSettle(stores, events, j, i);
    }
  }

  lemma WritesSettle(stores: seq<Store>, events: seq<Event>, i: nat, j: nat)
    requires Run(stores, events) && i < j < |events| && events[i] == Repair(true)
    ensures Settled(stores[j]) && events[j] != Repair(true)
  {
    RunKeeps(stores, events, i, i);
    StepKeeps(stores[i], events[i], stores[i + 1]);
    RunKeeps(stores, events, i + 1, j);
    StepKeeps(stores[j], events[j], stores[j + 1]);
  }

  function DrawnAt(stores: seq<Store>, events: seq<Event>, i: nat): Drawn
    requires i < |events| && i < |stores| && events[i].Insert?
  {
    DefaultInsert(stores[i], events[i].committed).1
  }

  /** No value is issued twice, repairs included: later draws are strictly above earlier ones. And
      after a repair that wrote, no draw collides. */
  lemma DrawsAreFresh(stores: seq<Store>, events: seq<Event>, i: nat, j: nat)
    requires Run(stores, events) && i < j < |events| && events[j].Insert?
    ensures events[i].Insert? && !DrawnAt(stores, events, i).Exhausted? && !DrawnAt(stores, events, j).Exhausted? ==>
              DrawnAt(stores, events, i).id < DrawnAt(stores, events, j).id
    ensures events[i] == Repair(true) ==> !DrawnAt(stores, events, j).Collided?
  {
    RunKeeps(stores, events, i, i);
    StepKeeps(stores[i], events[i], stores[i + 1]);
    RunKeeps(stores, events, i + 1, j);
  }
}
