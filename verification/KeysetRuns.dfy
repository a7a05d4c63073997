/** Runs of rotation operations over one keyset directory, with and without an envelope store. */
module KeysetRuns {
  import opened Wrappers
  import opened KeysetNames
  import opened Keyset
  import opened KeysetDirectories

  datatype Operation =
    | Prepare(purpose: Option<Purpose>, requested: Option<int>, key: KeyId, now: Time)
    | Activate(purpose: Option<Purpose>, generation: int, confirmed: bool, now: Time)
    | Retire(purpose: Option<Purpose>, generation: int, referenced: int, deletePrivate: bool, confirmed: bool)

  predicate Accepted(d: Directory, op: Operation) {
    match op
    case Prepare(purpose, requested, key, _) => PrepareCheck(d, purpose, requested, key).Ok?
    case Activate(purpose, generation, confirmed, _) => ActivateCheck(d, purpose, generation, confirmed).Ok?
    case Retire(purpose, generation, referenced, _, confirmed) =>
      RetireCheck(d, purpose, generation, referenced, confirmed).Ok?
  }

  lemma AcceptedFacts(d: Directory, op: Operation)
    requires Accepted(d, op)
    ensures op.purpose.Some? && Verified(d.manifest, d.files)
    ensures op.Prepare? ==>
              Preparable(d, op.purpose.value, PrepareCheck(d, op.purpose, op.requested, op.key).value, op.key)
  {
  }

  /** The directory an accepted operation aims at. */
  function After(d: Directory, op: Operation): Directory
    requires Accepted(d, op)
  {
    AcceptedFacts(d, op);
    var p := op.purpose.value;
    match op
    case Prepare(purpose, requested, key, now) =>
      PreparedDirectory(d, p, PrepareCheck(d, purpose, requested, key).value, key, now)
    case Activate(_, generation, _, now) => ActivatedDirectory(d, p, generation, now)
    case Retire(_, generation, _, deletePrivate, _) => RetiredDirectory(d, p, generation, deletePrivate)
  }

  /** One call that left the directory as it was or as it aims to make it. */
  ghost predicate OperationStep(d: Directory, op: Operation, d': Directory) {
    d' == d || (Accepted(d, op) && d' == After(d, op))
  }

  // What the methods guarantee: a call is such a step exactly when it is refused or its faults let
  // it restore or install, and it then ends verified; an activation always is.

  lemma PrepareIsStep(
    d: Directory, op: Operation, r: Result<int, KeysetError>, env: Environment, at: nat,
    all: seq<Directory>, from: nat, d': Directory)
    requires op.Prepare?
    requires PrepareGuarantee(d, op.purpose, op.requested, op.key, op.now, r, env, at, all, from, d')
    ensures OperationStep(d, op, d') <==>
              !Accepted(d, op) || PreparationRestores(env, at) || PreparationInstalls(env, at)
    ensures Accepted(d, op) ==> (OperationStep(d, op, d') <==> Verified(d'.manifest, d'.files))
    ensures r.Ok? ==> d' == After(d, op)
  {
    if Accepted(d, op) && r.Ok? {
      assert Completes(env, at, 5);
    }
  }

  lemma ActivateIsStep(
    d: Directory, op: Operation, r: Result<(), KeysetError>, env: Environment, at: nat,
    all: seq<Directory>, from: nat, d': Directory)
    requires op.Activate?
    requires ActivateGuarantee(d, op.purpose, op.generation, op.confirmed, op.now, r, env, at, all, from, d')
    ensures OperationStep(d, op, d')
    ensures r.Ok? ==> d' == After(d, op)
  {
    if r.Ok? {
      assert Completes(env, at, 3);
    }
  }

  lemma RetireIsStep(
    d: Directory, op: Operation, r: Result<(), KeysetError>, env: Environment, at: nat,
    all: seq<Directory>, from: nat, d': Directory)
    requires op.Retire?
    requires RetireGuarantee(d, op.purpose, op.generation, op.referenced, op.deletePrivate, op.confirmed,
                             r, env, at, all, from, d')
    ensures OperationStep(d, op, d') <==>
              !Accepted(d, op) || !HasKeyToDelete(d, op.purpose.value, op.generation, op.deletePrivate)
              || RetirementRestores(env, at) || RetirementInstalls(env, at)
    ensures Accepted(d, op) ==> (OperationStep(d, op, d') <==> Verified(d'.manifest, d'.files))
    ensures r.Ok? ==> d' == After(d, op)
  {
  }

  lemma AfterVerified(d: Directory, op: Operation)
    requires Accepted(d, op)
    ensures Verified(After(d, op).manifest, After(d, op).files)
  {
    AcceptedFacts(d, op);
    var p := op.purpose.value;
    match op
    case Prepare(purpose, requested, key, now) =>
      PreparedVerified(d, p, PrepareCheck(d, purpose, requested, key).value, key, now);
    case Activate(_, generation, confirmed, now) => ActivatedVerified(d, p, generation, confirmed, now);
    case Retire(_, generation, referenced, deletePrivate, confirmed) =>
      RetiredVerified(d, p, generation, referenced, confirmed, deletePrivate);
  }

  ghost predicate Run(ds: seq<Directory>, ops: seq<Operation>) {
    && |ds| == |ops| + 1
    && forall i :: 0 <= i < |ops| ==> OperationStep(ds[i], ops[i], ds[i + 1])
  }

  /** Over every run from a provisioned keyset, the directory verifies between operations. */
  lemma {:induction false} RunVerified(keys: seq<KeyId>, now: Time, ds: seq<Directory>, ops: seq<Operation>, i: nat)
    requires |keys| == |PURPOSES| && keys[0] != keys[1]
    requires Run(ds, ops) && ds[0] == InitialDirectory(keys, now)
    requires i < |ds|
    ensures Verified(ds[i].manifest, ds[i].files)
  {
    if i == 0 {
      InitialVerified(keys, now);
    } else {
      RunVerified(keys, now, ds, ops, i - 1);
      assert OperationStep(ds[i - 1], ops[i - 1], ds[i]);
      if ds[i] != ds[i - 1] {
        AfterVerified(ds[i - 1], ops[i - 1]);
      }
    }
  }

  // ---- At every step ----

  /** Whatever fails, an activation passes only through directories that verify. */
  lemma ActivationAlwaysVerified(
    d: Directory, op: Operation, r: Result<(), KeysetError>, env: Environment, at: nat,
    all: seq<Directory>, from: nat, d': Directory)
    requires op.Activate? && Verified(d.manifest, d.files)
    requires ActivateGuarantee(d, op.purpose, op.generation, op.confirmed, op.now, r, env, at, all, from, d')
    ensures forall k :: from <= k < |all| ==> Verified(all[k].manifest, all[k].files)
    ensures Verified(d'.manifest, d'.files)
  {
    if Accepted(d, op) {
      AfterVerified(d, op);
    }
  }

  /** Whatever fails, a retirement passes only through directories holding all they name. */
  lemma RetirementAlwaysPresent(
    d: Directory, op: Operation, r: Result<(), KeysetError>, env: Environment, at: nat,
    all: seq<Directory>, from: nat, d': Directory)
    requires op.Retire? && NamedPresent(d)
    requires RetireGuarantee(d, op.purpose, op.generation, op.referenced, op.deletePrivate, op.confirmed,
                             r, env, at, all, from, d')
    ensures forall k :: from <= k < |all| ==> NamedPresent(all[k])
    ensures NamedPresent(d')
  {
    if Accepted(d, op) {
      AfterVerified(d, op);
      VerifiedImpliesNamedPresent(After(d, op));
      forall s | RetireReaches(After(d, op), s) ensures NamedPresent(s) {
        PresentExtended(After(d, op), s.files);
        assert s == Directory(After(d, op).manifest, s.files);
      }
    }
  }

  /** Exactly when no new file is lost, a preparation leaves, and passes only through, directories
      holding all they name. */
  lemma PreparationAlwaysPresent(
    d: Directory, op: Operation, r: Result<int, KeysetError>, env: Environment, at: nat,
    all: seq<Directory>, from: nat, d': Directory)
    requires op.Prepare? && Accepted(d, op)
    requires PrepareGuarantee(d, op.purpose, op.requested, op.key, op.now, r, env, at, all, from, d')
    ensures NamedPresent(d') && (forall k :: from <= k < |all| ==> NamedPresent(all[k])) <==> !LosesNewFile(env, at)
  {
  }

  /** A fresh keyset accepts a preparation with any unused key. */
  lemma FirstPreparationAccepted(keys: seq<KeyId>, now: Time, key: KeyId)
    requires |keys| == |PURPOSES| && keys[0] != keys[1] && key != keys[0] && key != keys[1]
    ensures PrepareCheck(InitialDirectory(keys, now), Some(ImtSyncCredential), None, key).Ok?
  {
    var d := InitialDirectory(keys, now);
    InitialVerified(keys, now);
    NextGenerationIsFree(d, ImtSyncCredential, None, key);
    var rings := Normalized(d.manifest).value;
    InitialRingSound(ImtSyncCredential, keys[0], now, d.files);
    InitialRingSound(PassServiceSession, keys[1], now, d.files);
    var r := rings.At(ImtSyncCredential);
    assert RingSound(ImtSyncCredential, r, d.files);
    forall e | e in r.generations ensures 1 <= e.generation {
      assert EntrySound(ImtSyncCredential, r.activeGeneration, e, d.files);
    }
  }

  // ---- The two ways a failed preparation does not restore the directory ----

  /** The rename of the new manifest takes effect and the directory sync after it fails. */
  function SyncFails(i: nat): Fault {
    if i == 3 then Late else Fine
  }

  /** Run on any directory it accepts, the preparation fails, and its rollback, told the manifest
      was not replaced, unlinks the key files that manifest names. */
  method LateReplacementDamages(d: Directory, purpose: Option<Purpose>, requested: Option<int>, key: KeyId, now: Time)
    returns (r: Result<int, KeysetError>, d': Directory)
    requires PrepareCheck(d, purpose, requested, key).Ok?
    ensures r == Err(PrimitiveFailed) && d' != d
    ensures !NamedPresent(d') && !Verified(d'.manifest, d'.files)
  {
    var keyset := new KeysetDirectory(d.manifest, d.files, SyncFails);
    r := keyset.PrepareRotation(purpose, requested, key, now);
    d' := keyset.Contents();
    SyncFailsMeans();
  }

  lemma SyncFailsMeans()
    ensures LosesNewFile(SyncFails, 0) && SyncFails(0).Fine? && !Completes(SyncFails, 0, 5)
    ensures !PreparationRestores(SyncFails, 0) && !PreparationInstalls(SyncFails, 0)
  {
    assert SyncFails(3).Late?;
  }

  /** The first key file is created and its writing fails. */
  function WriteCutShort(i: nat): Fault {
    if i == 1 then Late else Fine
  }

  /** Run on any directory it accepts, the preparation fails, its rollback does not know of the
      file, and from then on every operation is refused. */
  method CutShortWriteBlocks(d: Directory, purpose: Option<Purpose>, requested: Option<int>, key: KeyId, now: Time)
    returns (r: Result<int, KeysetError>, d': Directory)
    requires PrepareCheck(d, purpose, requested, key).Ok?
    ensures r == Err(PrimitiveFailed) && d' != d
    ensures NamedPresent(d') && !Verified(d'.manifest, d'.files)
    ensures forall op :: !Accepted(d', op)
  {
    var keyset := new KeysetDirectory(d.manifest, d.files, WriteCutShort);
    r := keyset.PrepareRotation(purpose, requested, key, now);
    d' := keyset.Contents();
    WriteCutShortMeans();
    NothingAccepted(d');
  }

  lemma WriteCutShortMeans()
    ensures WriteCutShort(0).Fine? && !Completes(WriteCutShort, 0, 5) && !LosesNewFile(WriteCutShort, 0)
    ensures !PreparationRestores(WriteCutShort, 0) && !PreparationInstalls(WriteCutShort, 0)
  {
    assert WriteCutShort(1).Late?;
  }

  lemma NothingAccepted(d: Directory)
    requires !Verified(d.manifest, d.files)
    ensures forall op :: !Accepted(d, op)
  {
  }

  /** Only the sync after the last rename of a provisioning fails. */
  function LastSyncFails(i: nat): Fault {
    if i == 6 then Late else Fine
  }

  /** The provisioning reports failure with the keyset in place. */
  method ProvisionedAllTheSame(keys: seq<KeyId>, now: Time) returns (r: Result<(), KeysetError>, target: Option<Directory>)
    requires |keys| == |PURPOSES| && keys[0] != keys[1]
    ensures r.Err? && target == Some(InitialDirectory(keys, now))
  {
    var keyset;
    r, keyset := Provision(false, keys, now, LastSyncFails);
    assert LastSyncFails(6).Late?;
    target := Some(keyset.value.Contents());
  }

  // ---- Operations one after the other, on one directory in one environment ----

  /** Under this condition on its primitives, the first being `at`, an accepted call changes nothing. */
  predicate CallRestores(d: Directory, op: Operation, env: Environment, at: nat)
    requires Accepted(d, op)
  {
    match op
    case Prepare(_, _, _, _) => PreparationRestores(env, at)
    case Activate(_, _, _, _) => ActivationRestores(env, at)
    case Retire(purpose, generation, _, deletePrivate, _) =>
      !HasKeyToDelete(d, purpose.value, generation, deletePrivate) || RetirementRestores(env, at)
  }

  /** And under this one it does what it aims at. */
  predicate CallInstalls(d: Directory, op: Operation, env: Environment, at: nat)
    requires Accepted(d, op)
  {
    match op
    case Prepare(_, _, _, _) => PreparationInstalls(env, at)
    case Activate(_, _, _, _) => !ActivationRestores(env, at)
    case Retire(purpose, generation, _, deletePrivate, _) =>
      HasKeyToDelete(d, purpose.value, generation, deletePrivate) && RetirementInstalls(env, at)
  }

  /** What one call leaves. */
  ghost predicate CallLeaves(d: Directory, op: Operation, env: Environment, at: nat, ok: bool, d': Directory) {
    if !Accepted(d, op) then !ok && d' == d
    else
      && (CallRestores(d, op, env, at) ==> d' == d)
      && (CallInstalls(d, op, env, at) ==> d' == After(d, op))
      && (Verified(d'.manifest, d'.files) <==> CallRestores(d, op, env, at) || CallInstalls(d, op, env, at))
      && (ok ==> d' == After(d, op))
      && (!ok && Sparse(env) ==> CallRestores(d, op, env, at))
  }

  lemma PreparationCall(
    d: Directory, op: Operation, r: Result<int, KeysetError>, env: Environment, at: nat,
    all: seq<Directory>, from: nat, d': Directory)
    requires op.Prepare?
    requires PrepareGuarantee(d, op.purpose, op.requested, op.key, op.now, r, env, at, all, from, d')
    ensures CallLeaves(d, op, env, at, r.Ok?, d')
  {
    PrepareIsStep(d, op, r, env, at, all, from, d');
    if Sparse(env) {
      SparseFailures(env, at);
    }
  }

  lemma ActivationCall(
    d: Directory, op: Operation, r: Result<(), KeysetError>, env: Environment, at: nat,
    all: seq<Directory>, from: nat, d': Directory)
    requires op.Activate?
    requires ActivateGuarantee(d, op.purpose, op.generation, op.confirmed, op.now, r, env, at, all, from, d')
    ensures CallLeaves(d, op, env, at, r.Ok?, d')
  {
    ActivateIsStep(d, op, r, env, at, all, from, d');
    if Accepted(d, op) {
      AfterVerified(d, op);
    }
    if Sparse(env) {
      SparseFailures(env, at);
    }
  }

  lemma RetirementCall(
    d: Directory, op: Operation, r: Result<(), KeysetError>, env: Environment, at: nat,
    all: seq<Directory>, from: nat, d': Directory)
    requires op.Retire?
    requires RetireGuarantee(d, op.purpose, op.generation, op.referenced, op.deletePrivate, op.confirmed,
                             r, env, at, all, from, d')
    ensures CallLeaves(d, op, env, at, r.Ok?, d')
  {
    RetireIsStep(d, op, r, env, at, all, from, d');
    if Sparse(env) {
      SparseFailures(env, at);
    }
  }

  method Call(keyset: KeysetDirectory, op: Operation) returns (ok: bool)
    modifies keyset
    ensures old(keyset.steps) <= keyset.steps
    ensures CallLeaves(old(keyset.Contents()), op, keyset.environment, old(keyset.steps), ok, keyset.Contents())
  {
    ghost var d, at, from := keyset.Contents(), keyset.steps, |keyset.states|;
    match op
    case Prepare(purpose, requested, key, now) =>
      var r := keyset.PrepareRotation(purpose, requested, key, now);
      PreparationCall(d, op, r, keyset.environment, at, keyset.states, from, keyset.Contents());
      ok := r.Ok?;
    case Activate(purpose, generation, confirmed, now) =>
      var r := keyset.ActivateGeneration(purpose, generation, confirmed, now);
      ActivationCall(d, op, r, keyset.environment, at, keyset.states, from, keyset.Contents());
      ok := r.Ok?;
    case Retire(purpose, generation, referenced, deletePrivate, confirmed) =>
      var r := keyset.RetireGeneration(purpose, generation, referenced, deletePrivate, confirmed);
      RetirementCall(d, op, r, keyset.environment, at, keyset.states, from, keyset.Contents());
      ok := r.Ok?;
  }

  /** The record of a list of calls: where each began, whether it succeeded, and the directories
      before, between and after them. */
  datatype CallRecord = CallRecord(ats: seq<nat>, oks: seq<bool>, ds: seq<Directory>)

  ghost predicate Recorded(record: CallRecord, ops: seq<Operation>, env: Environment) {
    && |record.ats| == |record.oks| == |ops| && |record.ds| == |ops| + 1
    && (forall i, j :: 0 <= i < j < |ops| ==> record.ats[i] <= record.ats[j])
    && forall i :: 0 <= i < |ops| ==> CallLeaves(record.ds[i], ops[i], env, record.ats[i], record.oks[i], record.ds[i + 1])
  }

  /** Performs the operations in order. */
  method CallAll(keyset: KeysetDirectory, ops: seq<Operation>) returns (ghost record: CallRecord)
    modifies keyset
    ensures Recorded(record, ops, keyset.environment)
    ensures record.ds[0] == old(keyset.Contents()) && record.ds[|ops|] == keyset.Contents()
  {
    record := CallRecord([], [], [keyset.Contents()]);
    for i := 0 to |ops|
      invariant Recorded(record, ops[..i], keyset.environment)
      invariant record.ds[0] == old(keyset.Contents()) && record.ds[i] == keyset.Contents()
      invariant forall k :: 0 <= k < i ==> record.ats[k] <= keyset.steps
    {
      ghost var at := keyset.steps;
      var ok := Call(keyset, ops[i]);
      OneMoreCall(record, ops[..i], ops[..i + 1], keyset.environment, at, ok, keyset.Contents());
      record := CallRecord(record.ats + [at], record.oks + [ok], record.ds + [keyset.Contents()]);
    }
    assert ops[..|ops|] == ops;
  }

  lemma OneMoreCall(
    record: CallRecord, ops: seq<Operation>, more: seq<Operation>, env: Environment, at: nat, ok: bool, d: Directory)
    requires Recorded(record, ops, env) && |more| == |ops| + 1 && more[..|ops|] == ops
    requires forall k :: 0 <= k < |ops| ==> record.ats[k] <= at
    requires CallLeaves(record.ds[|ops|], more[|ops|], env, at, ok, d)
    ensures Recorded(CallRecord(record.ats + [at], record.oks + [ok], record.ds + [d]), more, env)
  {
    var ats, oks, ds := record.ats + [at], record.oks + [ok], record.ds + [d];
    forall i | 0 <= i < |more| ensures CallLeaves(ds[i], more[i], env, ats[i], oks[i], ds[i + 1]) {
      if i < |ops| {
        assert more[i] == more[..|ops|][i];
        assert CallLeaves(record.ds[i], ops[i], env, record.ats[i], record.oks[i], record.ds[i + 1]);
      }
    }
  }

  /** As long as every accepted call restores or installs, the directory verifies after every call, and
      the calls are a run of completed and rolled back operations. */
  lemma {:induction false} CallsVerified(record: CallRecord, ops: seq<Operation>, env: Environment, i: nat)
    requires Recorded(record, ops, env) && i <= |ops| && Verified(record.ds[0].manifest, record.ds[0].files)
    requires forall k :: 0 <= k < i && Accepted(record.ds[k], ops[k]) ==>
               CallRestores(record.ds[k], ops[k], env, record.ats[k]) || CallInstalls(record.ds[k], ops[k], env, record.ats[k])
    ensures Verified(record.ds[i].manifest, record.ds[i].files)
    ensures forall k :: 0 <= k < i ==> OperationStep(record.ds[k], ops[k], record.ds[k + 1])
  {
    if i > 0 {
      CallsVerified(record, ops, env, i - 1);
      assert CallLeaves(record.ds[i - 1], ops[i - 1], env, record.ats[i - 1], record.oks[i - 1], record.ds[i]);
    }
  }

  lemma SparseCall(d: Directory, op: Operation, env: Environment, at: nat, ok: bool, d': Directory)
    requires CallLeaves(d, op, env, at, ok, d') && Sparse(env)
    ensures !ok ==> d' == d
    ensures d' == d || (Accepted(d, op) && d' == After(d, op))
  {
  }

  /** Over every list of operations, in every environment where primitives complete or change nothing
      and no rollback meets a second failure, the directory verifies after every call, and a call
      that fails leaves it as it was. */
  lemma {:induction false} SparseCallsVerified(record: CallRecord, ops: seq<Operation>, env: Environment, i: nat)
    requires Recorded(record, ops, env) && Sparse(env) && i <= |ops|
    requires Verified(record.ds[0].manifest, record.ds[0].files)
    ensures Verified(record.ds[i].manifest, record.ds[i].files)
    ensures i < |ops| && !record.oks[i] ==> record.ds[i + 1] == record.ds[i]
  {
    if i < |ops| {
      SparseCall(record.ds[i], ops[i], env, record.ats[i], record.oks[i], record.ds[i + 1]);
    }
    if i > 0 {
      var d, op := record.ds[i - 1], ops[i - 1];
      SparseCallsVerified(record, ops, env, i - 1);
      SparseCall(d, op, env, record.ats[i - 1], record.oks[i - 1], record.ds[i]);
      if record.ds[i] != d {
        AfterVerified(d, op);
      }
    }
  }

  // ---- Generations over time ----

  function EntryOf(m: Manifest, p: Purpose, generation: int): Option<Entry> {
    if Normalized(m).None? then None else Find(Normalized(m).value.At(p).generations, generation)
  }

  /** Generations persist with their key; a deleted private key stays deleted. */
  ghost predicate Persists(m: Manifest, m': Manifest) {
    forall p, g :: EntryOf(m, p, g).Some? ==>
      && EntryOf(m', p, g).Some?
      && EntryOf(m', p, g).value.keyId == EntryOf(m, p, g).value.keyId
      && (EntryOf(m, p, g).value.privateFile.None? ==> EntryOf(m', p, g).value.privateFile.None?)
  }

  lemma FindInDistinct(s: seq<Entry>, e: Entry)
    requires Distinct(s) && e in s
    ensures Find(s, e.generation) == Some(e)
  {
    var i :| 0 <= i < |s| && s[i] == e;
    FindUnique(s, e.generation, i);
  }

  lemma FindAt(s: seq<Entry>, g: int) returns (i: nat)
    requires Find(s, g).Some?
    ensures i < |s| && s[i] == Find(s, g).value && s[i].generation == g
  {
    i :| 0 <= i < |s| && s[i] == Find(s, g).value;
  }

  /** Preparing keeps every older entry as it is. */
  lemma PreparedKeeps(r: Ring, e: Entry, g: int)
    requires Distinct(r.generations) && Find(r.generations, g).Some?
    requires !HasGeneration(r.generations, e.generation) && e.keyId !in KeyIds(r.generations)
    ensures Find(PreparedRing(r, e).generations, g) == Find(r.generations, g)
  {
    NewEntryApart(r, e);
    SortDistinct(r.generations + [e]);
    FindInDistinct(PreparedRing(r, e).generations, Find(r.generations, g).value);
  }

  /** Activating changes states and dates only. */
  lemma ActivatedKeeps(r: Ring, generation: int, now: Time, g: int)
    requires Distinct(r.generations) && Find(r.generations, g).Some?
    ensures Find(ActivatedRing(r, generation, now).generations, g)
         == Some(ActivatedEntry(Find(r.generations, g).value, generation, now))
  {
    var s, s' := r.generations, ActivatedRing(r, generation, now).generations;
    var i := FindAt(s, g);
    forall i, k | 0 <= i < k < |s| ensures Apart(s'[i], s'[k]) { assert Apart(s[i], s[k]); }
    FindUnique(s', g, i);
  }

  /** Retiring only forgets the private file of the generation named. */
  lemma RetiredKeeps(r: Ring, generation: int, g: int)
    requires Distinct(r.generations) && Find(r.generations, g).Some?
    ensures var e := Find(r.generations, g).value;
            Find(RetiredRing(r, generation).generations, g) == Some(if g == generation then e.(privateFile := None) else e)
  {
    var s, s' := r.generations, RetiredRing(r, generation).generations;
    var i := FindAt(s, g);
    forall i, k | 0 <= i < k < |s| ensures Apart(s'[i], s'[k]) { assert Apart(s[i], s[k]); }
    FindUnique(s', g, i);
  }

  /** `e'` is `e` with the same key, and its private file unless that was `lost`. */
  predicate SameKey(e: Option<Entry>, e': Option<Entry>, lost: bool) {
    && e.Some? && e'.Some? && e'.value.keyId == e.value.keyId
    && e'.value.privateFile == if lost then None else e.value.privateFile
  }

  lemma VerifiedDistinct(d: Directory, p: Purpose)
    requires Verified(d.manifest, d.files)
    ensures Distinct(Normalized(d.manifest).value.At(p).generations)
  {
  }

  lemma PreparedEntry(d: Directory, p: Purpose, next: int, key: KeyId, now: Time, q: Purpose, g: int)
    requires Preparable(d, p, next, key) && EntryOf(d.manifest, q, g).Some?
    ensures SameKey(EntryOf(d.manifest, q, g), EntryOf(PreparedDirectory(d, p, next, key, now).manifest, q, g), false)
  {
    VerifiedDistinct(d, p);
    var rings, e := Normalized(d.manifest).value, GenerationEntry(p, next, key, Retired, now);
    assert Normalized(PreparedDirectory(d, p, next, key, now).manifest)
        == Some(rings.With(p, PreparedRing(rings.At(p), e)));
    if q == p {
      PreparedKeeps(rings.At(p), e, g);
    }
  }

  lemma ActivatedSameKey(r: Ring, generation: int, now: Time, g: int)
    requires Distinct(r.generations) && Find(r.generations, g).Some?
    ensures SameKey(Find(r.generations, g), Find(ActivatedRing(r, generation, now).generations, g), false)
  {
    ActivatedKeeps(r, generation, now, g);
  }

  lemma ActivatedEntryOf(d: Directory, p: Purpose, generation: int, now: Time, q: Purpose, g: int)
    requires Verified(d.manifest, d.files) && EntryOf(d.manifest, q, g).Some?
    ensures SameKey(EntryOf(d.manifest, q, g), EntryOf(ActivatedDirectory(d, p, generation, now).manifest, q, g), false)
  {
    VerifiedDistinct(d, p);
    if q == p {
      ActivatedSameKey(Normalized(d.manifest).value.At(p), generation, now, g);
    }
  }

  lemma RetiredRings(rings: Rings, p: Purpose, generation: int, q: Purpose, g: int)
    requires Distinct(rings.At(p).generations)
    requires Find(rings.At(q).generations, g).Some?
    ensures SameKey(Find(rings.At(q).generations, g),
                    Find(rings.With(p, RetiredRing(rings.At(p), generation)).At(q).generations, g),
                    q == p && g == generation)
  {
    if q == p {
      RetiredKeeps(rings.At(p), generation, g);
    }
  }

  lemma RetiredEntryOf(d: Directory, p: Purpose, generation: int, deletePrivate: bool, q: Purpose, g: int)
    requires EntryOf(d.manifest, q, g).Some? && EntryOf(d.manifest, p, generation).Some?
    requires Distinct(Normalized(d.manifest).value.At(p).generations)
    ensures SameKey(EntryOf(d.manifest, q, g), EntryOf(RetiredDirectory(d, p, generation, deletePrivate).manifest, q, g),
                    deletePrivate && q == p && g == generation)
  {
    RetiredRings(Normalized(d.manifest).value, p, generation, q, g);
  }

  predicate Deletes(op: Operation, p: Purpose, g: int) {
    op.Retire? && op.deletePrivate && op.purpose == Some(p) && op.generation == g
  }

  lemma AfterEntry(d: Directory, op: Operation, q: Purpose, g: int)
    requires Accepted(d, op) && EntryOf(d.manifest, q, g).Some?
    ensures SameKey(EntryOf(d.manifest, q, g), EntryOf(After(d, op).manifest, q, g), Deletes(op, q, g))
  {
    AcceptedFacts(d, op);
    var p := op.purpose.value;
    VerifiedDistinct(d, p);
    match op
    case Prepare(purpose, requested, key, now) =>
      PreparedEntry(d, p, PrepareCheck(d, purpose, requested, key).value, key, now, q, g);
    case Activate(_, generation, _, now) => ActivatedEntryOf(d, p, generation, now, q, g);
    case Retire(_, generation, _, deletePrivate, _) => RetiredEntryOf(d, p, generation, deletePrivate, q, g);
  }

  /** Every directory an operation can pass through, whatever its primitives do. */
  ghost predicate Passes(d: Directory, op: Operation, d': Directory) {
    || d' == d
    || (Accepted(d, op) && match op
        case Prepare(purpose, requested, key, now) => PrepareReaches(d, After(d, op), d')
        case Activate(_, _, _, _) => d' == After(d, op)
        case Retire(_, _, _, _, _) => RetireReaches(After(d, op), d'))
  }

  // Whatever fails, a call leaves, and goes only through, such directories.

  lemma PreparePasses(
    d: Directory, op: Operation, r: Result<int, KeysetError>, env: Environment, at: nat,
    all: seq<Directory>, from: nat, d': Directory)
    requires op.Prepare?
    requires PrepareGuarantee(d, op.purpose, op.requested, op.key, op.now, r, env, at, all, from, d')
    ensures Passes(d, op, d') && forall k :: from <= k < |all| ==> Passes(d, op, all[k])
  {
  }

  lemma ActivatePasses(
    d: Directory, op: Operation, r: Result<(), KeysetError>, env: Environment, at: nat,
    all: seq<Directory>, from: nat, d': Directory)
    requires op.Activate?
    requires ActivateGuarantee(d, op.purpose, op.generation, op.confirmed, op.now, r, env, at, all, from, d')
    ensures Passes(d, op, d') && forall k :: from <= k < |all| ==> Passes(d, op, all[k])
  {
  }

  lemma RetirePasses(
    d: Directory, op: Operation, r: Result<(), KeysetError>, env: Environment, at: nat,
    all: seq<Directory>, from: nat, d': Directory)
    requires op.Retire?
    requires RetireGuarantee(d, op.purpose, op.generation, op.referenced, op.deletePrivate, op.confirmed,
                             r, env, at, all, from, d')
    ensures Passes(d, op, d') && forall k :: from <= k < |all| ==> Passes(d, op, all[k])
  {
  }

  /** A run of calls, each completed, failed or stopped anywhere. */
  ghost predicate AnyRun(ds: seq<Directory>, ops: seq<Operation>) {
    && |ds| == |ops| + 1
    && forall i :: 0 <= i < |ops| ==> Passes(ds[i], ops[i], ds[i + 1])
  }

  /** Some files verify under the manifest, though those present may not. */
  ghost predicate Verifiable(m: Manifest) {
    exists files: map<Name, Blob> :: Verified(m, files)
  }

  lemma PassesManifest(d: Directory, op: Operation, d': Directory)
    requires Passes(d, op, d')
    ensures d'.manifest == d.manifest || (Accepted(d, op) && d'.manifest == After(d, op).manifest)
  {
  }

  lemma PassesPersists(d: Directory, op: Operation, d': Directory)
    requires Passes(d, op, d')
    ensures Persists(d.manifest, d'.manifest)
    ensures Verifiable(d.manifest) ==> Verifiable(d'.manifest)
  {
    PassesManifest(d, op, d');
    if d'.manifest != d.manifest {
      AfterVerified(d, op);
      forall q, g | EntryOf(d.manifest, q, g).Some?
        ensures var e, e' := EntryOf(d.manifest, q, g).value, EntryOf(d'.manifest, q, g);
                e'.Some? && e'.value.keyId == e.keyId && (e.privateFile.None? ==> e'.value.privateFile.None?)
      {
        AfterEntry(d, op, q, g);
      }
    }
  }

  lemma PersistsTwice(m: Manifest, m': Manifest, m'': Manifest)
    requires Persists(m, m') && Persists(m', m'')
    ensures Persists(m, m'')
  {
  }

  lemma {:induction false} RunPersists(ds: seq<Directory>, ops: seq<Operation>, i: nat, j: nat)
    requires AnyRun(ds, ops) && i <= j < |ds|
    ensures Persists(ds[i].manifest, ds[j].manifest)
    ensures Verifiable(ds[i].manifest) ==> Verifiable(ds[j].manifest)
  {
    if i < j {
      RunPersists(ds, ops, i, j - 1);
      PassesPersists(ds[j - 1], ops[j - 1], ds[j]);
      PersistsTwice(ds[i].manifest, ds[j - 1].manifest, ds[j].manifest);
    }
  }

  /** Over every run, interruptions and failed rollbacks included, a generation number keeps denoting
      the same key pair, and one whose private key was given up is never active again. */
  lemma GenerationNeverReused(
    keys: seq<KeyId>, now: Time, ds: seq<Directory>, ops: seq<Operation>, i: nat, j: nat, p: Purpose, g: int)
    requires |keys| == |PURPOSES| && keys[0] != keys[1]
    requires AnyRun(ds, ops) && ds[0] == InitialDirectory(keys, now)
    requires i <= j < |ds| && EntryOf(ds[i].manifest, p, g).Some?
    ensures var e, e' := EntryOf(ds[i].manifest, p, g).value, EntryOf(ds[j].manifest, p, g);
            && e'.Some? && e'.value.keyId == e.keyId
            && (e.privateFile.None? ==>
                  && e'.value.privateFile.None? && e'.value.state.Retired?
                  && Normalized(ds[j].manifest).value.At(p).activeGeneration != g)
  {
    InitialVerified(keys, now);
    RunPersists(ds, ops, i, j);
    RunPersists(ds, ops, 0, j);
    var files: map<Name, Blob> :| Verified(ds[j].manifest, files);
    var e', r := EntryOf(ds[j].manifest, p, g).value, Normalized(ds[j].manifest).value.At(p);
    assert RingSound(p, r, files);
    assert EntrySound(p, r.activeGeneration, e', files);
    ActiveEntry(p, r, files);
  }

  /** The active generation is an entry of the ring, with its private key. */
  lemma ActiveEntry(p: Purpose, r: Ring, files: map<Name, Blob>)
    requires RingSound(p, r, files)
    ensures var e := Find(r.generations, r.activeGeneration);
            e.Some? && e.value.state.Active? && e.value.privateFile.Some?
  {
    var a :| a in r.generations && a.state.Active?;
    assert EntrySound(p, r.activeGeneration, a, files);
    FindInDistinct(r.generations, a);
  }

  // ---- Envelopes ----

  /** The stored envelopes, each sealed to one generation of one purpose. */
  datatype World = World(directory: Directory, envelopes: map<nat, (Purpose, int)>)

  function Referring(envelopes: map<nat, (Purpose, int)>, p: Purpose, g: int): set<nat> {
    set id | id in envelopes && envelopes[id] == (p, g)
  }

  function Referenced(envelopes: map<nat, (Purpose, int)>, p: Purpose, g: int): nat {
    |Referring(envelopes, p, g)|
  }

  datatype WorldStep =
    | Rotate(op: Operation)          // completed, or rolled back
    | Interrupted(op: Operation)     // stopped at any point, even inside a rollback
    | Seal(id: nat, purpose: Purpose)
    | Reseal(id: nat)
    | Delete(id: nat)

  /** Retirement is told the true number of envelopes of its generation. */
  predicate CountsTruly(w: World, op: Operation) {
    op.Retire? && op.purpose.Some? ==>
      op.referenced == Referenced(w.envelopes, op.purpose.value, op.generation)
  }

  function ActiveSeal(d: Directory, p: Purpose): (Purpose, int)
    requires Normalized(d.manifest).Some?
  {
    (p, Normalized(d.manifest).value.At(p).activeGeneration)
  }

  ghost predicate Steps(w: World, step: WorldStep, w': World) {
    match step
    case Rotate(op) =>
      CountsTruly(w, op) && OperationStep(w.directory, op, w'.directory) && w'.envelopes == w.envelopes
    case Interrupted(op) =>
      CountsTruly(w, op) && Passes(w.directory, op, w'.directory) && w'.envelopes == w.envelopes
    case Seal(id, p) =>
      && Normalized(w.directory.manifest).Some? && id !in w.envelopes
      && w' == w.(envelopes := w.envelopes[id := ActiveSeal(w.directory, p)])
    case Reseal(id) =>
      && Normalized(w.directory.manifest).Some? && id in w.envelopes
      && w' == w.(envelopes := w.envelopes[id := ActiveSeal(w.directory, w.envelopes[id].0)])
    case Delete(id) => w' == w.(envelopes := w.envelopes - {id})
  }

  /** The private key of a generation is named by the manifest and present. */
  ghost predicate Usable(d: Directory, p: Purpose, g: int) {
    var e := EntryOf(d.manifest, p, g);
    e.Some? && e.value.privateFile.Some? && HoldsPrivate(d.files, e.value.privateFile.value, e.value.keyId)
  }

  ghost predicate NothingStranded(w: World) {
    && Normalized(w.directory.manifest).Some?
    && (forall p: Purpose :: Usable(w.directory, p, Normalized(w.directory.manifest).value.At(p).activeGeneration))
    && forall id :: id in w.envelopes ==> Usable(w.directory, w.envelopes[id].0, w.envelopes[id].1)
  }

  lemma VerifiedActiveUsable(d: Directory, p: Purpose)
    requires Verified(d.manifest, d.files)
    ensures Usable(d, p, Normalized(d.manifest).value.At(p).activeGeneration)
  {
    var rings := Normalized(d.manifest).value;
    ActiveEntry(p, rings.At(p), d.files);
    NamedFilePresent(rings, d.files, p, EntryOf(d.manifest, p, rings.At(p).activeGeneration).value);
  }

  lemma UsableExtended(d: Directory, d': Directory, p: Purpose, g: int)
    requires Usable(d, p, g) && d'.manifest == d.manifest && Extension(d.files, d'.files)
    ensures Usable(d', p, g)
  {
  }

  /** Only a retirement of that very generation can take its private key away. */
  lemma AfterUsable(d: Directory, op: Operation, p: Purpose, g: int)
    requires Accepted(d, op) && Usable(d, p, g)
    requires op.Retire? ==> op.purpose != Some(p) || op.generation != g
    ensures Usable(After(d, op), p, g)
  {
    AcceptedFacts(d, op);
    AfterEntry(d, op, p, g);
    var e := EntryOf(d.manifest, p, g).value;
    if op.Prepare? {
      PreparedVerified(d, op.purpose.value, PrepareCheck(d, op.purpose, op.requested, op.key).value, op.key, op.now);
    } else if op.Retire? {
      KeyFileNamed(d, p, g);
      RetiredFilesStay(d, op.purpose.value, op.generation, op.deletePrivate, e.privateFile.value);
    }
  }

  lemma KeyFileNamed(d: Directory, p: Purpose, g: int)
    requires Verified(d.manifest, d.files) && EntryOf(d.manifest, p, g).Some?
    requires EntryOf(d.manifest, p, g).value.privateFile.Some?
    ensures EntryOf(d.manifest, p, g).value.privateFile == Some(KeyFile(p, g, Private))
  {
    var r := Normalized(d.manifest).value.At(p);
    assert RingSound(p, r, d.files);
    assert EntrySound(p, r.activeGeneration, EntryOf(d.manifest, p, g).value, d.files);
  }

  lemma RetiredFilesStay(d: Directory, q: Purpose, generation: int, deletePrivate: bool, n: Name)
    requires Verified(d.manifest, d.files) && EntryOf(d.manifest, q, generation).Some?
    requires n in d.files && n != KeyFile(q, generation, Private)
    ensures n in RetiredDirectory(d, q, generation, deletePrivate).files
    ensures RetiredDirectory(d, q, generation, deletePrivate).files[n] == d.files[n]
  {
    if EntryOf(d.manifest, q, generation).value.privateFile.Some? {
      KeyFileNamed(d, q, generation);
    }
  }

  lemma PassesKeeps(d: Directory, op: Operation, d': Directory, p: Purpose, g: int)
    requires Accepted(d, op) && Passes(d, op, d') && Usable(d, p, g)
    requires op.Retire? ==> op.purpose != Some(p) || op.generation != g
    ensures Usable(d', p, g)
  {
    AcceptedFacts(d, op);
    if d' != d {
      AfterUsable(d, op, p, g);
      if op.Retire? {
        UsableExtended(After(d, op), d', p, g);
      } else if op.Prepare? {
        if d'.manifest == d.manifest {
          UsableExtended(d, d', p, g);
        } else {
          AfterEntry(d, op, p, g);
        }
      }
    }
  }

  lemma RetiredActiveUsable(d: Directory, op: Operation, d': Directory, p: Purpose)
    requires Accepted(d, op) && op.Retire? && Passes(d, op, d') && d' != d
    ensures Normalized(d'.manifest).Some?
    ensures Usable(d', p, Normalized(d'.manifest).value.At(p).activeGeneration)
  {
    AfterVerified(d, op);
    VerifiedActiveUsable(After(d, op), p);
    UsableExtended(After(d, op), d', p, Normalized(d'.manifest).value.At(p).activeGeneration);
  }

  lemma PreparedActiveUsable(d: Directory, op: Operation, d': Directory, p: Purpose)
    requires Accepted(d, op) && op.Prepare? && Passes(d, op, d') && d' != d
    ensures Normalized(d'.manifest).Some?
    ensures Usable(d', p, Normalized(d'.manifest).value.At(p).activeGeneration)
  {
    AcceptedFacts(d, op);
    VerifiedActiveUsable(d, p);
    PassesKeeps(d, op, d', p, Normalized(d.manifest).value.At(p).activeGeneration);
  }

  lemma PassesActiveUsable(d: Directory, op: Operation, d': Directory, p: Purpose)
    requires Accepted(d, op) && Passes(d, op, d')
    ensures Normalized(d'.manifest).Some?
    ensures Usable(d', p, Normalized(d'.manifest).value.At(p).activeGeneration)
  {
    if d' == d {
      AcceptedFacts(d, op);
      VerifiedActiveUsable(d, p);
    } else if op.Retire? {
      RetiredActiveUsable(d, op, d', p);
    } else if op.Prepare? {
      PreparedActiveUsable(d, op, d', p);
    } else {
      AfterVerified(d, op);
      VerifiedActiveUsable(After(d, op), p);
    }
  }

  lemma StepIsPassage(d: Directory, op: Operation, d': Directory)
    requires OperationStep(d, op, d')
    ensures Passes(d, op, d')
  {
    if d' != d && op.Prepare? {
      AcceptedFacts(d, op);
      PreparedVerified(d, op.purpose.value, PrepareCheck(d, op.purpose, op.requested, op.key).value, op.key, op.now);
    }
  }

  lemma CountedEnvelope(envelopes: map<nat, (Purpose, int)>, id: nat, p: Purpose, g: int)
    requires id in envelopes && envelopes[id] == (p, g)
    ensures Referenced(envelopes, p, g) > 0
  {
    assert id in Referring(envelopes, p, g);
  }

  lemma EnvelopeKept(w: World, op: Operation, w': World, id: nat)
    requires NothingStranded(w) && CountsTruly(w, op) && id in w.envelopes
    requires Accepted(w.directory, op) && Passes(w.directory, op, w'.directory)
    ensures Usable(w'.directory, w.envelopes[id].0, w.envelopes[id].1)
  {
    AcceptedFacts(w.directory, op);
    CountedEnvelope(w.envelopes, id, w.envelopes[id].0, w.envelopes[id].1);
    PassesKeeps(w.directory, op, w'.directory, w.envelopes[id].0, w.envelopes[id].1);
  }

  /** One rotation, wherever it stops, strands no envelope. */
  lemma RotationStrandsNothing(w: World, op: Operation, w': World)
    requires NothingStranded(w) && CountsTruly(w, op)
    requires Passes(w.directory, op, w'.directory) && w'.envelopes == w.envelopes
    ensures NothingStranded(w')
  {
    if w'.directory != w.directory {
      forall p: Purpose
        ensures Normalized(w'.directory.manifest).Some?
        ensures Usable(w'.directory, p, Normalized(w'.directory.manifest).value.At(p).activeGeneration)
      {
        PassesActiveUsable(w.directory, op, w'.directory, p);
      }
      forall id | id in w'.envelopes ensures Usable(w'.directory, w'.envelopes[id].0, w'.envelopes[id].1) {
        EnvelopeKept(w, op, w', id);
      }
    }
  }

  lemma StepStrandsNothing(w: World, step: WorldStep, w': World)
    requires NothingStranded(w) && Steps(w, step, w')
    ensures NothingStranded(w')
  {
    match step
    case Rotate(op) =>
      StepIsPassage(w.directory, op, w'.directory);
      RotationStrandsNothing(w, op, w');
    case Interrupted(op) => RotationStrandsNothing(w, op, w');
    case Seal(_, _) =>
    case Reseal(_) =>
    case Delete(_) =>
  }

  /** No run strands an envelope: from a provisioned keyset, through any mix of completed,
      rolled back and interrupted rotations, sealing, re-sealing and deletion, every live
      envelope's generation has its private key. */
  lemma {:induction false} NoEnvelopeStranded(
    keys: seq<KeyId>, now: Time, ws: seq<World>, steps: seq<WorldStep>, i: nat)
    requires |keys| == |PURPOSES| && keys[0] != keys[1]
    requires |ws| == |steps| + 1 && ws[0] == World(InitialDirectory(keys, now), map[])
    requires forall k :: 0 <= k < |steps| ==> Steps(ws[k], steps[k], ws[k + 1])
    requires i < |ws|
    ensures NothingStranded(ws[i])
  {
    if i == 0 {
      InitialVerified(keys, now);
      VerifiedActiveUsable(ws[0].directory, ImtSyncCredential);
      VerifiedActiveUsable(ws[0].directory, PassServiceSession);
    } else {
      NoEnvelopeStranded(keys, now, ws, steps, i - 1);
      StepStrandsNothing(ws[i - 1], steps[i - 1], ws[i]);
    }
  }
}
