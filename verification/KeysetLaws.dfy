/** What each rotation operation does, entry by entry and file by file, and when it is accepted. */
module KeysetLaws {
  import opened Wrappers
  import opened KeysetNames
  import opened Keyset
  import opened KeysetDirectories
  import opened KeysetRuns

  function ActiveOf(m: Manifest, p: Purpose): Option<int> {
    if Normalized(m).None? then None else Some(Normalized(m).value.At(p).activeGeneration)
  }

  // ---- The invariant ----

  /** The entry is named as its generation is, its files hold its key, and if it is active it is the
      active one, with a private key. */
  ghost predicate EntryHolds(p: Purpose, r: Ring, e: Entry, files: map<Name, Blob>) {
    var priv, pub := KeyFile(p, e.generation, Private), KeyFile(p, e.generation, Public);
    && e.generation >= 1 && e.publicFile == pub && pub in files && files[pub] == PublicRaw(e.keyId)
    && (e.privateFile == None || (e.privateFile == Some(priv) && priv in files && files[priv] == PrivateRaw(e.keyId)))
    && (e.state == Active ==> e.generation == r.activeGeneration && e.privateFile != None && e.retiredAt == None)
  }

  /** Its entries hold, one is active, and no two share a generation or a key. */
  ghost predicate RingHolds(p: Purpose, r: Ring, files: map<Name, Blob>) {
    && (forall e :: e in r.generations ==> EntryHolds(p, r, e, files))
    && (exists e :: e in r.generations && e.state == Active)
    && (forall i, j :: 0 <= i < j < |r.generations| ==> r.generations[i].generation != r.generations[j].generation)
    && (forall i, j :: 0 <= i < j < |r.generations| ==> r.generations[i].keyId != r.generations[j].keyId)
  }

  /** The files are exactly those that entries name. */
  ghost predicate FilesHold(rings: Rings, files: map<Name, Blob>) {
    forall n :: n in files <==> exists p, e :: e in rings.At(p).generations && Names(e, n)
  }

  ghost predicate KeysDiffer(s: seq<Entry>, t: seq<Entry>) {
    forall e, f :: e in s && f in t ==> e.keyId != f.keyId
  }

  predicate Names(e: Entry, n: Name) {
    n == e.publicFile || e.privateFile == Some(n)
  }

  lemma RingMeans(p: Purpose, r: Ring, files: map<Name, Blob>)
    ensures RingSound(p, r, files) <==> RingHolds(p, r, files)
  {
    assert forall e :: EntrySound(p, r.activeGeneration, e, files) <==> EntryHolds(p, r, e, files);
  }

  lemma NamedMeans(s: seq<Entry>, n: Name)
    ensures n in FilesOf(s) <==> exists e :: e in s && Names(e, n)
  {
    if n in FilesOf(s) {
      var i := FileOwner(s, n);
      assert s[i] in s && Names(s[i], n);
    }
    if e :| e in s && Names(e, n) {
      var i :| 0 <= i < |s| && s[i] == e;
      OwnFilesListed(s, i);
    }
  }

  lemma KeysApart(s: seq<Entry>, t: seq<Entry>)
    ensures KeyIds(s) !! KeyIds(t) <==> KeysDiffer(s, t)
  {
    forall key ensures key in KeyIds(s) <==> exists e :: e in s && e.keyId == key {
      KeyIdsMean(s, key);
      if e :| e in s && e.keyId == key {
        var i :| 0 <= i < |s| && s[i] == e;
      }
    }
    forall key ensures key in KeyIds(t) <==> exists f :: f in t && f.keyId == key {
      KeyIdsMean(t, key);
      if f :| f in t && f.keyId == key {
        var i :| 0 <= i < |t| && t[i] == f;
      }
    }
    if KeysDiffer(s, t) {
      forall key | key in KeyIds(s) ensures key !in KeyIds(t) {
        var e :| e in s && e.keyId == key;
      }
    } else {
      var e, f :| e in s && f in t && e.keyId == f.keyId;
      assert e.keyId in KeyIds(s) && f.keyId in KeyIds(t);
    }
  }

  lemma FilesMean(rings: Rings, files: map<Name, Blob>)
    ensures files.Keys == NamedFiles(rings) <==> FilesHold(rings, files)
  {
    forall n ensures n in NamedFiles(rings) <==> exists p, e :: e in rings.At(p).generations && Names(e, n) {
      NamedMeans(rings.At(ImtSyncCredential).generations, n);
      NamedMeans(rings.At(PassServiceSession).generations, n);
    }
    assert files.Keys == NamedFiles(rings) <==> forall n :: n in files <==> n in NamedFiles(rings);
  }

  lemma RingsMean(rings: Rings, files: map<Name, Blob>)
    ensures RingsVerified(rings, files) <==> Holds(rings, files)
  {
    RingMeans(ImtSyncCredential, rings.imtSync, files);
    RingMeans(PassServiceSession, rings.passService, files);
    KeysApart(rings.imtSync.generations, rings.passService.generations);
    FilesMean(rings, files);
  }

  /** What a directory needs to verify, entry by entry and file by file. */
  ghost predicate Holds(rings: Rings, files: map<Name, Blob>) {
    && RingHolds(ImtSyncCredential, rings.imtSync, files)
    && RingHolds(PassServiceSession, rings.passService, files)
    && KeysDiffer(rings.imtSync.generations, rings.passService.generations)
    && FilesHold(rings, files)
  }

  lemma VerifiedMeans(d: Directory)
    ensures Verified(d.manifest, d.files)
       <==> Normalized(d.manifest) != None && Holds(Normalized(d.manifest).value, d.files)
  {
    if Normalized(d.manifest) != None {
      RingsMean(Normalized(d.manifest).value, d.files);
    }
  }

  // ---- prepare_rotation ----

  /** A new retired generation with its key pair, and nothing else. */
  ghost predicate Prepared(d: Directory, op: Operation, next: int, d': Directory)
    requires op.Prepare? && op.purpose.Some?
  {
    var p := op.purpose.value;
    var priv, pub := KeyFile(p, next, Private), KeyFile(p, next, Public);
    && priv !in d.files && pub !in d.files
    && d'.files == d.files[priv := PrivateRaw(op.key)][pub := PublicRaw(op.key)]
    && EntryOf(d'.manifest, p, next) == Some(Entry(next, Retired, op.key, Some(priv), pub, op.now, None))
    && (forall q, g :: q != p || g != next ==> EntryOf(d'.manifest, q, g) == EntryOf(d.manifest, q, g))
    && (forall q :: ActiveOf(d'.manifest, q) == ActiveOf(d.manifest, q))
    && Normalized(d'.manifest).Some? && Ordered(Normalized(d'.manifest).value.At(p).generations)
  }

  /** The number given is the one requested, or else one more than the highest there is. */
  ghost predicate NumberedNext(d: Directory, op: Operation, next: int)
    requires op.Prepare? && op.purpose.Some?
  {
    if op.requested.Some? && op.requested.value != 0 then next == op.requested.value
    else
      && EntryOf(d.manifest, op.purpose.value, next - 1).Some?
      && forall g :: EntryOf(d.manifest, op.purpose.value, g).Some? ==> g < next
  }

  ghost predicate KeyUnused(d: Directory, key: KeyId) {
    forall p, g :: EntryOf(d.manifest, p, g).Some? ==> EntryOf(d.manifest, p, g).value.keyId != key
  }

  lemma {:induction false} KeyIdsMean(s: seq<Entry>, key: KeyId)
    ensures key in KeyIds(s) <==> exists i :: 0 <= i < |s| && s[i].keyId == key
  {
    if s != [] {
      KeyIdsMean(s[1..], key);
      if key in KeyIds(s[1..]) {
        var i :| 0 <= i < |s[1..]| && s[1..][i].keyId == key;
        assert s[i + 1].keyId == key;
      }
      if i :| 0 < i < |s| && s[i].keyId == key {
        assert s[1..][i - 1].keyId == key;
      }
    }
  }

  lemma RingKeys(d: Directory, p: Purpose, key: KeyId)
    requires Verified(d.manifest, d.files)
    ensures key in KeyIds(Normalized(d.manifest).value.At(p).generations)
       <==> exists g :: EntryOf(d.manifest, p, g).Some? && EntryOf(d.manifest, p, g).value.keyId == key
  {
    var s := Normalized(d.manifest).value.At(p).generations;
    VerifiedDistinct(d, p);
    KeyIdsMean(s, key);
    if i :| 0 <= i < |s| && s[i].keyId == key {
      FindUnique(s, s[i].generation, i);
      assert EntryOf(d.manifest, p, s[i].generation) == Some(s[i]);
    }
    if g :| EntryOf(d.manifest, p, g).Some? && EntryOf(d.manifest, p, g).value.keyId == key {
      var i := FindAt(s, g);
    }
  }

  lemma KeyUnusedMeans(d: Directory, key: KeyId)
    requires Verified(d.manifest, d.files)
    ensures KeyUsed(Normalized(d.manifest).value, key) <==> !KeyUnused(d, key)
  {
    RingKeys(d, ImtSyncCredential, key);
    RingKeys(d, PassServiceSession, key);
  }

  lemma NumberMeans(d: Directory, op: Operation, next: int)
    requires op.Prepare? && op.purpose.Some? && Verified(d.manifest, d.files)
    requires Normalized(d.manifest).value.At(op.purpose.value).generations != []
    ensures next == NextGeneration(Normalized(d.manifest).value.At(op.purpose.value).generations, op.requested)
       <==> NumberedNext(d, op, next)
  {
    var s := Normalized(d.manifest).value.At(op.purpose.value).generations;
    var m := MaxGeneration(s);
    assert EntryOf(d.manifest, op.purpose.value, m).Some?;
    forall g | EntryOf(d.manifest, op.purpose.value, g).Some? ensures g <= m {
      var i := FindAt(s, g);
    }
  }

  /** Exactly these calls are accepted, with the number that the new generation gets. */
  lemma PreparationAccepted(d: Directory, op: Operation, next: int)
    requires op.Prepare?
    ensures PrepareCheck(d, op.purpose, op.requested, op.key) == Ok(next)
       <==> && op.purpose.Some? && Verified(d.manifest, d.files) && NumberedNext(d, op, next)
            && next >= 1 && EntryOf(d.manifest, op.purpose.value, next).None? && KeyUnused(d, op.key)
  {
    if op.purpose.Some? && Verified(d.manifest, d.files) {
      var s := Normalized(d.manifest).value.At(op.purpose.value).generations;
      ActiveExists(Normalized(d.manifest).value, d.files, op.purpose.value);
      NumberMeans(d, op, NextGeneration(s, op.requested));
      NumberMeans(d, op, next);
      KeyUnusedMeans(d, op.key);
    }
  }

  lemma PreparedGenerations(r: Ring, e: Entry, g: int)
    ensures Find(PreparedRing(r, e).generations, g).Some? <==> g == e.generation || Find(r.generations, g).Some?
  {
    var s, s' := r.generations, PreparedRing(r, e).generations;
    assert forall x :: x in s' <==> x in s || x == e;
    if HasGeneration(s, g) {
      var x :| x in s && x.generation == g;
      assert x in s';
    }
    if HasGeneration(s', g) {
      var x :| x in s' && x.generation == g;
      assert x == e || x in s;
    }
    assert e in s';
  }

  lemma PreparedRingEntries(r: Ring, e: Entry, g: int)
    requires Distinct(r.generations) && !HasGeneration(r.generations, e.generation)
    requires e.keyId !in KeyIds(r.generations)
    ensures Find(PreparedRing(r, e).generations, g) == if g == e.generation then Some(e) else Find(r.generations, g)
  {
    PreparedGenerations(r, e, g);
    if g == e.generation {
      NewEntryApart(r, e);
      SortDistinct(r.generations + [e]);
      FindInDistinct(PreparedRing(r, e).generations, e);
    } else if Find(r.generations, g).Some? {
      PreparedKeeps(r, e, g);
    }
  }

  lemma PreparationDoes(d: Directory, op: Operation)
    requires op.Prepare? && Accepted(d, op)
    ensures Prepared(d, op, PrepareCheck(d, op.purpose, op.requested, op.key).value, After(d, op))
  {
    AcceptedFacts(d, op);
    var p, next := op.purpose.value, PrepareCheck(d, op.purpose, op.requested, op.key).value;
    var rings := Normalized(d.manifest).value;
    var r, e := rings.At(p), GenerationEntry(p, next, op.key, Retired, op.now);
    var d' := After(d, op);
    PreparedVerified(d, p, next, op.key, op.now);
    VerifiedDistinct(d, p);
    SortOrdered(r.generations + [e]);
    assert Normalized(d'.manifest) == Some(rings.With(p, PreparedRing(r, e)));
    forall q, g
      ensures EntryOf(d'.manifest, q, g) == if q == p && g == next then Some(e) else EntryOf(d.manifest, q, g)
    {
      if q == p {
        PreparedRingEntries(r, e, g);
      }
    }
  }

  // ---- activate_generation ----

  /** The entry as activation leaves it: the target active, an entry that was active retired. */
  predicate ActivatedFrom(e: Option<Entry>, target: bool, now: Time, e': Option<Entry>) {
    if e.None? then e'.None?
    else
      e' == Some(if target then e.value.(state := Active, retiredAt := None)
                 else if e.value.state.Active? then e.value.(state := Retired, retiredAt := Some(now))
                 else e.value)
  }

  /** The generation is the active one of its purpose, and nothing else is touched. */
  ghost predicate Activated(d: Directory, op: Operation, d': Directory)
    requires op.Activate? && op.purpose.Some?
  {
    var p := op.purpose.value;
    && d'.files == d.files
    && ActiveOf(d'.manifest, p) == Some(op.generation)
    && ActiveOf(d'.manifest, OtherPurpose(p)) == ActiveOf(d.manifest, OtherPurpose(p))
    && (forall g :: EntryOf(d'.manifest, OtherPurpose(p), g) == EntryOf(d.manifest, OtherPurpose(p), g))
    && EntryOf(d'.manifest, p, op.generation).Some?
    && forall g :: ActivatedFrom(EntryOf(d.manifest, p, g), g == op.generation, op.now, EntryOf(d'.manifest, p, g))
  }

  /** Exactly these calls are accepted. */
  lemma ActivationAccepted(d: Directory, op: Operation)
    requires op.Activate?
    ensures Accepted(d, op)
       <==> && op.confirmed && op.purpose.Some? && op.generation >= 1 && Verified(d.manifest, d.files)
            && EntryOf(d.manifest, op.purpose.value, op.generation).Some?
            && EntryOf(d.manifest, op.purpose.value, op.generation).value.privateFile.Some?
  {
  }

  lemma ActivatedRingEntries(r: Ring, generation: int, now: Time, g: int)
    requires Distinct(r.generations)
    ensures ActivatedFrom(Find(r.generations, g), g == generation, now,
                          Find(ActivatedRing(r, generation, now).generations, g))
  {
    if Find(r.generations, g).Some? {
      ActivatedKeeps(r, generation, now, g);
    } else if Find(ActivatedRing(r, generation, now).generations, g).Some? {
      var i := FindAt(ActivatedRing(r, generation, now).generations, g);
      assert false;
    }
  }

  lemma ActivationDoes(d: Directory, op: Operation)
    requires op.Activate? && Accepted(d, op)
    ensures Activated(d, op, After(d, op))
  {
    var p, rings := op.purpose.value, Normalized(d.manifest).value;
    VerifiedDistinct(d, p);
    forall g
      ensures ActivatedFrom(EntryOf(d.manifest, p, g), g == op.generation, op.now,
                            EntryOf(After(d, op).manifest, p, g))
    {
      ActivatedRingEntries(rings.At(p), op.generation, op.now, g);
    }
  }

  // ---- retire_generation ----

  /** The private key of the generation is gone from manifest and files, if it is to be deleted, and
      nothing else is touched. */
  ghost predicate RetiredAs(d: Directory, op: Operation, d': Directory)
    requires op.Retire? && op.purpose.Some?
  {
    var p, g := op.purpose.value, op.generation;
    var e := EntryOf(d.manifest, p, g);
    && e.Some? && e.value.state.Retired?
    && (if op.deletePrivate && e.value.privateFile.Some? then
          && e.value.privateFile.value == KeyFile(p, g, Private) && KeyFile(p, g, Private) in d.files
          && d'.files == d.files - {KeyFile(p, g, Private)}
          && EntryOf(d'.manifest, p, g) == Some(e.value.(privateFile := None))
        else d' == d)
    && (forall q, h :: q != p || h != g ==> EntryOf(d'.manifest, q, h) == EntryOf(d.manifest, q, h))
    && forall q :: ActiveOf(d'.manifest, q) == ActiveOf(d.manifest, q)
  }

  /** Exactly these calls are accepted. */
  lemma RetirementAccepted(d: Directory, op: Operation)
    requires op.Retire?
    ensures Accepted(d, op)
       <==> && op.confirmed && op.purpose.Some? && op.generation >= 1 && op.referenced == 0
            && Verified(d.manifest, d.files)
            && EntryOf(d.manifest, op.purpose.value, op.generation).Some?
            && ActiveOf(d.manifest, op.purpose.value) != Some(op.generation)
  {
    if op.purpose.Some? && Verified(d.manifest, d.files) && EntryOf(d.manifest, op.purpose.value, op.generation).Some? {
      var r := Normalized(d.manifest).value.At(op.purpose.value);
      assert EntrySound(op.purpose.value, r.activeGeneration, Find(r.generations, op.generation).value, d.files);
    }
  }

  lemma RetiredRingEntries(r: Ring, generation: int, g: int)
    requires Distinct(r.generations)
    ensures var e := Find(r.generations, g);
            Find(RetiredRing(r, generation).generations, g)
            == if e.Some? && g == generation then Some(e.value.(privateFile := None)) else e
  {
    if Find(r.generations, g).Some? {
      RetiredKeeps(r, generation, g);
    } else if Find(RetiredRing(r, generation).generations, g).Some? {
      var i := FindAt(RetiredRing(r, generation).generations, g);
      assert false;
    }
  }

  lemma RetiredManifest(d: Directory, op: Operation, rings: Rings)
    requires op.Retire? && Accepted(d, op) && op.deletePrivate && Normalized(d.manifest) == Some(rings)
    requires EntryOf(d.manifest, op.purpose.value, op.generation).value.privateFile.Some?
    ensures Distinct(rings.At(op.purpose.value).generations)
    ensures Normalized(After(d, op).manifest)
         == Some(rings.With(op.purpose.value, RetiredRing(rings.At(op.purpose.value), op.generation)))
  {
    VerifiedDistinct(d, op.purpose.value);
    RetiredLacksKey(d, op.purpose.value, op.generation);
  }

  lemma RetiredEntries(d: Directory, op: Operation, q: Purpose, h: int)
    requires op.Retire? && Accepted(d, op) && op.deletePrivate
    requires EntryOf(d.manifest, op.purpose.value, op.generation).value.privateFile.Some?
    ensures var e := EntryOf(d.manifest, q, h);
            EntryOf(After(d, op).manifest, q, h)
            == if q == op.purpose.value && h == op.generation then Some(e.value.(privateFile := None)) else e
    ensures ActiveOf(After(d, op).manifest, q) == ActiveOf(d.manifest, q)
  {
    var p, rings := op.purpose.value, Normalized(d.manifest).value;
    RetiredManifest(d, op, rings);
    RetiredRingEntries(rings.At(p), op.generation, h);
  }

  lemma RetirementDoes(d: Directory, op: Operation)
    requires op.Retire? && Accepted(d, op)
    ensures RetiredAs(d, op, After(d, op))
  {
    var p, rings := op.purpose.value, Normalized(d.manifest).value;
    var e := Find(rings.At(p).generations, op.generation).value;
    if op.deletePrivate && e.privateFile.Some? {
      KeyFileNamed(d, p, op.generation);
      RetiredLacksKey(d, p, op.generation);
      forall q, h
        ensures EntryOf(After(d, op).manifest, q, h)
             == if q == p && h == op.generation then Some(e.(privateFile := None)) else EntryOf(d.manifest, q, h)
        ensures ActiveOf(After(d, op).manifest, q) == ActiveOf(d.manifest, q)
      {
        RetiredEntries(d, op, q, h);
      }
    }
  }

  // ---- The calls ----

  /** The answer to every call of a preparation, checks in this order. */
  lemma PreparationAnswers(
    d: Directory, op: Operation, r: Result<int, KeysetError>, env: Environment, at: nat,
    all: seq<Directory>, from: nat, d': Directory)
    requires op.Prepare?
    requires PrepareGuarantee(d, op.purpose, op.requested, op.key, op.now, r, env, at, all, from, d')
    ensures op.purpose == None ==> r == Err(PurposeInvalid)
    ensures op.purpose != None && !(env(at).Fine? && Verified(d.manifest, d.files)) ==> r == Err(VerifyFailed)
    ensures op.purpose != None && env(at).Fine? && Verified(d.manifest, d.files) ==>
              exists next :: && NumberedNext(d, op, next)
                             && r == if next < 1 || EntryOf(d.manifest, op.purpose.value, next) != None
                                     then Err(GenerationExists)
                                     else if !KeyUnused(d, op.key) then Err(KeysNotDistinct)
                                     else if Completes(env, at, 5) then Ok(next) else Err(PrimitiveFailed)
  {
    if op.purpose != None && env(at).Fine? && Verified(d.manifest, d.files) {
      var s := Normalized(d.manifest).value.At(op.purpose.value).generations;
      ActiveExists(Normalized(d.manifest).value, d.files, op.purpose.value);
      NumberMeans(d, op, NextGeneration(s, op.requested));
      KeyUnusedMeans(d, op.key);
    }
  }

  lemma ActivationAnswers(
    d: Directory, op: Operation, r: Result<(), KeysetError>, env: Environment, at: nat,
    all: seq<Directory>, from: nat, d': Directory)
    requires op.Activate?
    requires ActivateGuarantee(d, op.purpose, op.generation, op.confirmed, op.now, r, env, at, all, from, d')
    ensures r == if !op.confirmed then Err(ConfirmationRequired)
                 else if op.purpose == None || op.generation < 1 then Err(GenerationInvalid)
                 else if !(env(at).Fine? && Verified(d.manifest, d.files)) then Err(VerifyFailed)
                 else
                   var e := EntryOf(d.manifest, op.purpose.value, op.generation);
                   if e == None || e.value.privateFile == None then Err(GenerationInvalid)
                   else if Completes(env, at, 3) then Ok(()) else Err(PrimitiveFailed)
  {
  }

  lemma RetirementAnswers(
    d: Directory, op: Operation, r: Result<(), KeysetError>, env: Environment, at: nat,
    all: seq<Directory>, from: nat, d': Directory)
    requires op.Retire?
    requires RetireGuarantee(d, op.purpose, op.generation, op.referenced, op.deletePrivate, op.confirmed,
                             r, env, at, all, from, d')
    ensures r == if !op.confirmed then Err(ConfirmationRequired)
                 else if op.purpose == None || op.generation < 1 || op.referenced < 0 then Err(GenerationInvalid)
                 else if op.referenced != 0 then Err(GenerationStillReferenced)
                 else if !(env(at).Fine? && Verified(d.manifest, d.files)) then Err(VerifyFailed)
                 else
                   var e := EntryOf(d.manifest, op.purpose.value, op.generation);
                   if e == None || ActiveOf(d.manifest, op.purpose.value) == Some(op.generation)
                   then Err(GenerationNotRetired)
                   else
                     var deletes := op.deletePrivate && e.value.privateFile != None;
                     if Completes(env, at, if deletes then 6 else 2) then Ok(()) else Err(PrimitiveFailed)
  {
    RetirementAccepted(d, op);
  }

  /** A call that succeeds was accepted and did what its operation is for. */
  ghost predicate Did(d: Directory, op: Operation, next: int, d': Directory) {
    && op.purpose.Some?
    && match op
       case Prepare(_, _, _, _) => NumberedNext(d, op, next) && Prepared(d, op, next, d')
       case Activate(_, _, _, _) => Activated(d, op, d')
       case Retire(_, _, _, _, _) => RetiredAs(d, op, d')
  }

  lemma PreparationDid(
    d: Directory, op: Operation, r: Result<int, KeysetError>, env: Environment, at: nat,
    all: seq<Directory>, from: nat, d': Directory)
    requires op.Prepare? && r.Ok?
    requires PrepareGuarantee(d, op.purpose, op.requested, op.key, op.now, r, env, at, all, from, d')
    ensures Did(d, op, r.value, d') && Verified(d'.manifest, d'.files)
  {
    PrepareIsStep(d, op, r, env, at, all, from, d');
    PreparationAccepted(d, op, r.value);
    PreparationDoes(d, op);
  }

  lemma ActivationDid(
    d: Directory, op: Operation, r: Result<(), KeysetError>, env: Environment, at: nat,
    all: seq<Directory>, from: nat, d': Directory)
    requires op.Activate? && r.Ok?
    requires ActivateGuarantee(d, op.purpose, op.generation, op.confirmed, op.now, r, env, at, all, from, d')
    ensures Did(d, op, op.generation, d') && Verified(d'.manifest, d'.files)
  {
    ActivateIsStep(d, op, r, env, at, all, from, d');
    ActivationDoes(d, op);
    AfterVerified(d, op);
  }

  lemma RetirementDid(
    d: Directory, op: Operation, r: Result<(), KeysetError>, env: Environment, at: nat,
    all: seq<Directory>, from: nat, d': Directory)
    requires op.Retire? && r.Ok?
    requires RetireGuarantee(d, op.purpose, op.generation, op.referenced, op.deletePrivate, op.confirmed,
                             r, env, at, all, from, d')
    ensures Did(d, op, op.generation, d') && Verified(d'.manifest, d'.files)
  {
    RetireIsStep(d, op, r, env, at, all, from, d');
    RetirementDoes(d, op);
  }
}
