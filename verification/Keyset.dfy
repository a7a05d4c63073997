/** The keyset manifest, the state a directory must be in (`Verified`), and what each
    rotation operation turns one directory into. Key material is symbolic: a key pair is a
    `KeyId`, the digest of its public half, and distinct pairs have distinct digests. */
module Keyset {
  import opened Wrappers
  import opened KeysetNames

  const SUITE_ID := 1

  type KeyId = nat
  type Time = nat

  /** Bytes of a key file. `Foreign` is anything else, for example a file cut short. */
  datatype Blob = PrivateRaw(key: KeyId) | PublicRaw(key: KeyId) | Foreign

  datatype GenerationState = Active | Retired

  datatype Entry = Entry(
    generation: int,
    state: GenerationState,
    keyId: KeyId,
    privateFile: Option<Name>,
    publicFile: Name,
    createdAt: Time,
    retiredAt: Option<Time>)

  datatype Ring = Ring(activeGeneration: int, generations: seq<Entry>)

  /** The manifest's `purposes` object, which must hold exactly the two known purposes. */
  datatype Rings = Rings(imtSync: Ring, passService: Ring) {
    function At(p: Purpose): Ring {
      if p.ImtSyncCredential? then imtSync else passService
    }

    function With(p: Purpose, r: Ring): Rings {
      if p.ImtSyncCredential? then this.(imtSync := r) else this.(passService := r)
    }
  }

  datatype LegacyKey = LegacyKey(
    purpose: Purpose, keyId: KeyId, privateFile: Name, publicFile: Name, createdAt: Time)

  /** A parsed manifest: version 1, version 2, or JSON of any other shape or version. */
  datatype Manifest =
    | Legacy(suiteId: nat, keys: seq<LegacyKey>)
    | Current(suiteId: nat, purposes: Rings)
    | Malformed

  /** A keyset directory: the installed manifest and every other file. */
  datatype Directory = Directory(manifest: Manifest, files: map<Name, Blob>)

  datatype KeysetError =
    | PurposeInvalid | VerifyFailed | GenerationExists | KeysNotDistinct | GenerationInvalid
    | GenerationNotRetired | GenerationStillReferenced | ConfirmationRequired | TargetExists
    | PrimitiveFailed

  // ---- Building entries and normalising manifests ----

  function GenerationEntry(
    purpose: Purpose, generation: int, key: KeyId, state: GenerationState, createdAt: Time): Entry
  {
    Entry(generation, state, key,
          Some(KeyFile(purpose, generation, Private)), KeyFile(purpose, generation, Public),
          createdAt, None)
  }

  function InitialRings(imtSync: Entry, passService: Entry): Rings {
    Rings(Ring(1, [imtSync]), Ring(1, [passService]))
  }

  predicate LegacyKeyAccepted(k: LegacyKey) {
    && k.privateFile == KeyFile(k.purpose, 1, Private)
    && k.publicFile == KeyFile(k.purpose, 1, Public)
  }

  function LegacyEntry(k: LegacyKey): Entry {
    GenerationEntry(k.purpose, 1, k.keyId, Active, k.createdAt)
  }

  /** The last key listed for a purpose, as a dictionary filled in order keeps it. */
  function LegacyEntries(keys: seq<LegacyKey>): map<Purpose, Entry> {
    if keys == [] then map[]
    else LegacyEntries(keys[..|keys| - 1])[keys[|keys| - 1].purpose := LegacyEntry(keys[|keys| - 1])]
  }

  function LegacyRings(suiteId: nat, keys: seq<LegacyKey>): Option<Rings> {
    if suiteId == SUITE_ID && (forall k :: k in keys ==> LegacyKeyAccepted(k))
       && ImtSyncCredential in LegacyEntries(keys) && PassServiceSession in LegacyEntries(keys)
    then Some(InitialRings(LegacyEntries(keys)[ImtSyncCredential], LegacyEntries(keys)[PassServiceSession]))
    else None
  }

  /** The i-th key is the last one listed for the purpose. */
  predicate LastFor(keys: seq<LegacyKey>, p: Purpose, i: nat) {
    i < |keys| && keys[i].purpose == p && forall j :: i < j < |keys| ==> keys[j].purpose != p
  }

  lemma {:induction false} LastListed(keys: seq<LegacyKey>, p: Purpose)
    ensures p in LegacyEntries(keys) <==> exists i: nat :: LastFor(keys, p, i)
    ensures forall i: nat :: LastFor(keys, p, i) ==> p in LegacyEntries(keys) && LegacyEntries(keys)[p] == LegacyEntry(keys[i])
  {
    if keys != [] {
      var front, last := keys[..|keys| - 1], |keys| - 1;
      LastListed(front, p);
      if keys[last].purpose == p {
        assert LastFor(keys, p, last);
        assert forall i: nat :: LastFor(keys, p, i) ==> i == last;
      } else {
        forall i: nat ensures LastFor(keys, p, i) <==> LastFor(front, p, i) {
          assert forall j :: 0 <= j < last ==> front[j] == keys[j];
        }
      }
    }
  }

  ghost predicate FirstRing(keys: seq<LegacyKey>, p: Purpose, r: Ring) {
    exists i: nat :: LastFor(keys, p, i)
      && r == Ring(1, [Entry(1, Active, keys[i].keyId, Some(KeyFile(p, 1, Private)), KeyFile(p, 1, Public),
                             keys[i].createdAt, None)])
  }

  /** A legacy manifest is read, under the known suite and with the first generation's file names
      throughout, as one active first generation per purpose: the last key listed for it. */
  lemma LegacyMeans(suiteId: nat, keys: seq<LegacyKey>, rings: Rings)
    ensures LegacyRings(suiteId, keys) == Some(rings) <==>
              && suiteId == SUITE_ID
              && (forall k :: k in keys ==> && k.privateFile == KeyFile(k.purpose, 1, Private)
                                            && k.publicFile == KeyFile(k.purpose, 1, Public))
              && FirstRing(keys, ImtSyncCredential, rings.imtSync) && FirstRing(keys, PassServiceSession, rings.passService)
  {
    LastListed(keys, ImtSyncCredential);
    LastListed(keys, PassServiceSession);
  }

  /** The upgrade of a legacy manifest, filling a dictionary in list order. */
  method LegacyToV2(suiteId: nat, keys: seq<LegacyKey>) returns (r: Option<Rings>)
    ensures r == LegacyRings(suiteId, keys)
  {
    if suiteId != SUITE_ID {
      return None;
    }
    var entries: map<Purpose, Entry> := map[];
    var i := 0;
    while i < |keys|
      invariant 0 <= i <= |keys|
      invariant entries == LegacyEntries(keys[..i])
      invariant forall k :: k in keys[..i] ==> LegacyKeyAccepted(k)
    {
      if !LegacyKeyAccepted(keys[i]) {
        return None;
      }
      assert keys[..i + 1] == keys[..i] + [keys[i]];
      entries := entries[keys[i].purpose := LegacyEntry(keys[i])];
      i := i + 1;
    }
    assert keys[..i] == keys;
    if ImtSyncCredential !in entries || PassServiceSession !in entries {
      return None;
    }
    r := Some(InitialRings(entries[ImtSyncCredential], entries[PassServiceSession]));
  }

  function Normalized(m: Manifest): Option<Rings> {
    match m
    case Legacy(suiteId, keys) => LegacyRings(suiteId, keys)
    case Current(suiteId, purposes) =>
      if suiteId == SUITE_ID then Some(purposes) else None
    case Malformed => None
  }

  // ---- The state invariant ----

  predicate HoldsPublic(files: map<Name, Blob>, name: Name, key: KeyId) {
    name in files && files[name] == PublicRaw(key)
  }

  predicate HoldsPrivate(files: map<Name, Blob>, name: Name, key: KeyId) {
    name in files && files[name] == PrivateRaw(key)
  }

  predicate EntrySound(p: Purpose, active: int, e: Entry, files: map<Name, Blob>) {
    && e.generation >= 1
    && e.publicFile == KeyFile(p, e.generation, Public)
    && (e.privateFile.None? || e.privateFile.value == KeyFile(p, e.generation, Private))
    && HoldsPublic(files, e.publicFile, e.keyId)
    && (e.privateFile.Some? ==> HoldsPrivate(files, e.privateFile.value, e.keyId))
    && (e.state.Active? ==> e.generation == active && e.privateFile.Some? && e.retiredAt.None?)
  }

  predicate Apart(e: Entry, f: Entry) {
    e.generation != f.generation && e.keyId != f.keyId
  }

  predicate Distinct(s: seq<Entry>) {
    forall i, j :: 0 <= i < j < |s| ==> Apart(s[i], s[j])
  }

  predicate RingSound(p: Purpose, r: Ring, files: map<Name, Blob>) {
    && (forall e :: e in r.generations ==> EntrySound(p, r.activeGeneration, e, files))
    && Distinct(r.generations)
    && (exists e :: e in r.generations && e.state.Active?)
  }

  function EntryFiles(e: Entry): set<Name> {
    {e.publicFile} + (if e.privateFile.Some? then {e.privateFile.value} else {})
  }

  function FilesOf(s: seq<Entry>): set<Name> {
    if s == [] then {} else EntryFiles(s[0]) + FilesOf(s[1..])
  }

  function KeyIds(s: seq<Entry>): set<KeyId> {
    if s == [] then {} else {s[0].keyId} + KeyIds(s[1..])
  }

  lemma {:induction false} FileOwner(s: seq<Entry>, n: Name) returns (i: nat)
    requires n in FilesOf(s)
    ensures i < |s| && n in EntryFiles(s[i])
  {
    if n in EntryFiles(s[0]) {
      i := 0;
    } else {
      i := FileOwner(s[1..], n);
      i := i + 1;
    }
  }

  lemma {:induction false} NotListed(s: seq<Entry>, n: Name)
    requires forall e :: e in s ==> n !in EntryFiles(e)
    ensures n !in FilesOf(s)
  {
    if s != [] {
      NotListed(s[1..], n);
    }
  }

  lemma {:induction false} OwnFilesListed(s: seq<Entry>, i: nat)
    requires i < |s|
    ensures EntryFiles(s[i]) <= FilesOf(s) && s[i].keyId in KeyIds(s)
  {
    if i > 0 {
      OwnFilesListed(s[1..], i - 1);
    }
  }

  function NamedFiles(rings: Rings): set<Name> {
    FilesOf(rings.imtSync.generations) + FilesOf(rings.passService.generations)
  }

  predicate RingsVerified(rings: Rings, files: map<Name, Blob>) {
    && RingSound(ImtSyncCredential, rings.imtSync, files)
    && RingSound(PassServiceSession, rings.passService, files)
    && KeyIds(rings.imtSync.generations) !! KeyIds(rings.passService.generations)
    && files.Keys == NamedFiles(rings)
  }

  /** Every condition the directory is checked for: sound entries, one active generation per
      purpose, key ids distinct across both purposes, and no file beyond the named ones. */
  predicate Verified(m: Manifest, files: map<Name, Blob>) {
    Normalized(m).Some? && RingsVerified(Normalized(m).value, files)
  }

  /** The crash guarantee: whatever the installed manifest names is there, with the right key. */
  predicate NamedPresent(d: Directory) {
    && Normalized(d.manifest).Some?
    && RingPresent(Normalized(d.manifest).value.imtSync, d.files)
    && RingPresent(Normalized(d.manifest).value.passService, d.files)
  }

  predicate RingPresent(r: Ring, files: map<Name, Blob>) {
    forall e :: e in r.generations ==>
      && HoldsPublic(files, e.publicFile, e.keyId)
      && (e.privateFile.Some? ==> HoldsPrivate(files, e.privateFile.value, e.keyId))
  }

  function OtherPurpose(p: Purpose): Purpose {
    if p.ImtSyncCredential? then PassServiceSession else ImtSyncCredential
  }

  /** Replacing one purpose's ring keeps the whole keyset verified. */
  lemma RingsWith(rings: Rings, p: Purpose, r: Ring, files: map<Name, Blob>)
    requires RingSound(p, r, files) && RingSound(OtherPurpose(p), rings.At(OtherPurpose(p)), files)
    requires KeyIds(r.generations) !! KeyIds(rings.At(OtherPurpose(p)).generations)
    requires files.Keys == FilesOf(r.generations) + FilesOf(rings.At(OtherPurpose(p)).generations)
    ensures RingsVerified(rings.With(p, r), files)
  {
  }

  // ---- Sorting generations ----

  function InsertByGeneration(e: Entry, s: seq<Entry>): (r: seq<Entry>)
    ensures forall x :: x in r <==> x == e || x in s
  {
    if s == [] then [e]
    else if e.generation < s[0].generation then [e] + s
    else [s[0]] + InsertByGeneration(e, s[1..])
  }

  function SortByGeneration(s: seq<Entry>): (r: seq<Entry>)
    ensures forall x :: x in r <==> x in s
  {
    if s == [] then [] else InsertByGeneration(s[|s| - 1], SortByGeneration(s[..|s| - 1]))
  }

  predicate Ordered(s: seq<Entry>) {
    forall i, j :: 0 <= i < j < |s| ==> s[i].generation <= s[j].generation
  }

  lemma {:induction false} InsertOrdered(e: Entry, s: seq<Entry>)
    requires Ordered(s)
    ensures Ordered(InsertByGeneration(e, s))
    ensures |InsertByGeneration(e, s)| == |s| + 1
  {
    if s != [] && e.generation >= s[0].generation {
      InsertOrdered(e, s[1..]);
      var r := InsertByGeneration(e, s[1..]);
      forall x | x in r ensures s[0].generation <= x.generation { }
    }
  }

  lemma {:induction false} SortOrdered(s: seq<Entry>)
    ensures Ordered(SortByGeneration(s)) && |SortByGeneration(s)| == |s|
  {
    if s != [] {
      SortOrdered(s[..|s| - 1]);
      InsertOrdered(s[|s| - 1], SortByGeneration(s[..|s| - 1]));
    }
  }

  lemma {:induction false} InsertKeepsFiles(e: Entry, s: seq<Entry>)
    ensures FilesOf(InsertByGeneration(e, s)) == FilesOf(s) + EntryFiles(e)
    ensures KeyIds(InsertByGeneration(e, s)) == KeyIds(s) + {e.keyId}
  {
    if s == [] || e.generation < s[0].generation {
      assert ([e] + s)[1..] == s;
    } else {
      InsertKeepsFiles(e, s[1..]);
      assert InsertByGeneration(e, s)[1..] == InsertByGeneration(e, s[1..]);
    }
  }

  lemma {:induction false} AppendFiles(s: seq<Entry>, e: Entry)
    ensures FilesOf(s + [e]) == FilesOf(s) + EntryFiles(e)
    ensures KeyIds(s + [e]) == KeyIds(s) + {e.keyId}
  {
    if s == [] {
      assert s + [e] == [e];
    } else {
      assert (s + [e])[1..] == s[1..] + [e];
      AppendFiles(s[1..], e);
    }
  }

  lemma {:induction false} SortKeepsFiles(s: seq<Entry>)
    ensures FilesOf(SortByGeneration(s)) == FilesOf(s) && KeyIds(SortByGeneration(s)) == KeyIds(s)
  {
    if s != [] {
      var front, e := s[..|s| - 1], s[|s| - 1];
      SortKeepsFiles(front);
      InsertKeepsFiles(e, SortByGeneration(front));
      AppendFiles(front, e);
      assert s == front + [e];
    }
  }

  lemma {:induction false} InsertDistinct(e: Entry, s: seq<Entry>)
    requires Distinct(s) && forall x :: x in s ==> Apart(e, x)
    ensures Distinct(InsertByGeneration(e, s))
  {
    if s != [] && e.generation >= s[0].generation {
      InsertDistinct(e, s[1..]);
      var r := InsertByGeneration(e, s[1..]);
      forall x | x in r ensures Apart(s[0], x) {
        if x == e {
          assert Apart(e, s[0]);
        } else {
          var i :| 0 <= i < |s[1..]| && s[1..][i] == x;
          assert s[i + 1] == x;
        }
      }
    }
  }

  lemma {:induction false} SortDistinct(s: seq<Entry>)
    requires Distinct(s)
    ensures Distinct(SortByGeneration(s))
  {
    if s != [] {
      var front, e := s[..|s| - 1], s[|s| - 1];
      SortDistinct(front);
      forall x | x in SortByGeneration(front) ensures Apart(e, x) {
        var i :| 0 <= i < |front| && front[i] == x;
        assert Apart(s[i], e);
      }
      InsertDistinct(e, SortByGeneration(front));
    }
  }

  // ---- prepare_rotation ----

  function MaxGeneration(s: seq<Entry>): (m: int)
    requires s != []
    ensures forall e :: e in s ==> e.generation <= m
    ensures exists e :: e in s && e.generation == m
  {
    if |s| == 1 then s[0].generation
    else
      var rest := MaxGeneration(s[1..]);
      assert s == [s[0]] + s[1..];
      if s[0].generation > rest then s[0].generation else rest
  }

  predicate HasGeneration(s: seq<Entry>, generation: int) {
    exists e :: e in s && e.generation == generation
  }

  predicate KeyUsed(rings: Rings, key: KeyId) {
    key in KeyIds(rings.imtSync.generations) + KeyIds(rings.passService.generations)
  }

  function NextGeneration(generations: seq<Entry>, requested: Option<int>): int
    requires generations != []
  {
    if requested.Some? && requested.value != 0 then requested.value
    else MaxGeneration(generations) + 1
  }

  /** The generation number to create, or why the call is refused. */
  function PrepareCheck(d: Directory, purpose: Option<Purpose>, requested: Option<int>, key: KeyId)
    : (r: Result<int, KeysetError>)
  {
    if purpose.None? then Err(PurposeInvalid)
    else if !Verified(d.manifest, d.files) then Err(VerifyFailed)
    else
      var p := purpose.value;
      var rings := Normalized(d.manifest).value;
      assert rings.At(p).generations != [] by {
        assert exists e :: e in rings.imtSync.generations && e.state.Active?;
      }
      var next := NextGeneration(rings.At(p).generations, requested);
      if next < 1 || HasGeneration(rings.At(p).generations, next)
      then Err(GenerationExists)
      else if KeyUsed(rings, key) then Err(KeysNotDistinct)
      else Ok(next)
  }

  function PreparedRing(r: Ring, e: Entry): Ring {
    r.(generations := SortByGeneration(r.generations + [e]))
  }

  function PreparedManifest(rings: Rings, p: Purpose, e: Entry): Manifest
  {
    Current(SUITE_ID, rings.With(p, PreparedRing(rings.At(p), e)))
  }

  function PreparedDirectory(d: Directory, p: Purpose, next: int, key: KeyId, now: Time): Directory
    requires Normalized(d.manifest).Some?
  {
    var e := GenerationEntry(p, next, key, Retired, now);
    Directory(
      PreparedManifest(Normalized(d.manifest).value, p, e), NewFiles(d.files, p, next, key))
  }

  lemma NamedFileParts(rings: Rings, files: map<Name, Blob>, name: Name) returns (p: Purpose, e: Entry, k: Kind)
    requires RingsVerified(rings, files)
    requires name in files
    ensures e in rings.At(p).generations && e.generation >= 1
    ensures name == KeyFile(p, e.generation, k)
  {
    p := if name in FilesOf(rings.imtSync.generations) then ImtSyncCredential else PassServiceSession;
    var r := rings.At(p);
    var i := FileOwner(r.generations, name);
    e := r.generations[i];
    assert EntrySound(p, r.activeGeneration, e, files);
    k := if e.publicFile == name then Public else Private;
  }

  /** The two files a new generation needs never exist yet: exclusive creation cannot fail on them. */
  lemma FreshNames(rings: Rings, files: map<Name, Blob>, p: Purpose, next: int, k: Kind)
    requires RingsVerified(rings, files)
    requires next >= 1
    requires forall e :: e in rings.At(p).generations ==> e.generation != next
    ensures KeyFile(p, next, k) !in files
  {
    if KeyFile(p, next, k) in files {
      var q, e, l := NamedFileParts(rings, files, KeyFile(p, next, k));
      assert false;
    }
  }

  predicate Extension(files: map<Name, Blob>, more: map<Name, Blob>) {
    forall n :: n in files ==> n in more && more[n] == files[n]
  }

  lemma RingSoundExtended(p: Purpose, r: Ring, files: map<Name, Blob>, more: map<Name, Blob>)
    requires RingSound(p, r, files)
    requires Extension(files, more)
    ensures RingSound(p, r, more)
  {
    forall e | e in r.generations ensures EntrySound(p, r.activeGeneration, e, more) {
      assert EntrySound(p, r.activeGeneration, e, files);
    }
  }

  lemma PreparedRingSound(p: Purpose, r: Ring, e: Entry, files: map<Name, Blob>)
    requires RingSound(p, r, files)
    requires EntrySound(p, r.activeGeneration, e, files)
    requires forall x :: x in r.generations ==> Apart(x, e)
    ensures RingSound(p, PreparedRing(r, e), files)
    ensures FilesOf(PreparedRing(r, e).generations) == FilesOf(r.generations) + EntryFiles(e)
    ensures KeyIds(PreparedRing(r, e).generations) == KeyIds(r.generations) + {e.keyId}
  {
    var s := r.generations + [e];
    SortDistinct(s);
    SortKeepsFiles(s);
    AppendFiles(r.generations, e);
    var a :| a in r.generations && a.state.Active?;
    assert a in PreparedRing(r, e).generations;
    forall x | x in PreparedRing(r, e).generations
      ensures EntrySound(p, r.activeGeneration, x, files) { }
  }

  lemma NewEntryApart(r: Ring, e: Entry)
    requires !HasGeneration(r.generations, e.generation)
    requires e.keyId !in KeyIds(r.generations)
    ensures forall x :: x in r.generations ==> Apart(x, e)
  {
    forall x | x in r.generations ensures x.keyId != e.keyId {
      var i :| 0 <= i < |r.generations| && r.generations[i] == x;
      OwnFilesListed(r.generations, i);
    }
  }

  lemma GrownRings(p: Purpose, r: Ring, other: Ring, e: Entry, files: map<Name, Blob>, more: map<Name, Blob>)
    requires RingSound(p, r, files) && RingSound(OtherPurpose(p), other, files)
    requires Extension(files, more)
    requires EntrySound(p, r.activeGeneration, e, more)
    requires !HasGeneration(r.generations, e.generation) && e.keyId !in KeyIds(r.generations)
    ensures RingSound(p, PreparedRing(r, e), more) && RingSound(OtherPurpose(p), other, more)
    ensures FilesOf(PreparedRing(r, e).generations) == FilesOf(r.generations) + EntryFiles(e)
    ensures KeyIds(PreparedRing(r, e).generations) == KeyIds(r.generations) + {e.keyId}
  {
    RingSoundExtended(p, r, files, more);
    RingSoundExtended(OtherPurpose(p), other, files, more);
    NewEntryApart(r, e);
    PreparedRingSound(p, r, e, more);
  }

  function NewFiles(files: map<Name, Blob>, p: Purpose, next: int, key: KeyId): map<Name, Blob> {
    files[KeyFile(p, next, Private) := PrivateRaw(key)][KeyFile(p, next, Public) := PublicRaw(key)]
  }

  lemma NewFilesHoldEntry(
    rings: Rings, files: map<Name, Blob>, p: Purpose, active: int, next: int, key: KeyId, now: Time)
    requires RingsVerified(rings, files)
    requires next >= 1 && !HasGeneration(rings.At(p).generations, next)
    ensures KeyFile(p, next, Private) !in files && KeyFile(p, next, Public) !in files
    ensures Extension(files, NewFiles(files, p, next, key))
    ensures EntrySound(p, active, GenerationEntry(p, next, key, Retired, now), NewFiles(files, p, next, key))
    ensures NewFiles(files, p, next, key).Keys == files.Keys + EntryFiles(GenerationEntry(p, next, key, Retired, now))
  {
    FreshNames(rings, files, p, next, Private);
    FreshNames(rings, files, p, next, Public);
  }

  lemma GrownSets(rings: Rings, p: Purpose, s: seq<Entry>, e: Entry, names: set<Name>, more: set<Name>)
    requires names == NamedFiles(rings) && more == names + EntryFiles(e)
    requires KeyIds(rings.imtSync.generations) !! KeyIds(rings.passService.generations)
    requires !KeyUsed(rings, e.keyId)
    requires FilesOf(s) == FilesOf(rings.At(p).generations) + EntryFiles(e)
    requires KeyIds(s) == KeyIds(rings.At(p).generations) + {e.keyId}
    ensures more == FilesOf(s) + FilesOf(rings.At(OtherPurpose(p)).generations)
    ensures KeyIds(s) !! KeyIds(rings.At(OtherPurpose(p)).generations)
  {
  }

  lemma PreparedRingsVerified(rings: Rings, files: map<Name, Blob>, p: Purpose, next: int, key: KeyId, now: Time)
    requires RingsVerified(rings, files)
    requires next >= 1 && !HasGeneration(rings.At(p).generations, next) && !KeyUsed(rings, key)
    ensures RingsVerified(
              rings.With(p, PreparedRing(rings.At(p), GenerationEntry(p, next, key, Retired, now))),
              NewFiles(files, p, next, key))
    ensures KeyFile(p, next, Private) !in files && KeyFile(p, next, Public) !in files
    ensures Extension(files, NewFiles(files, p, next, key))
  {
    var e, more := GenerationEntry(p, next, key, Retired, now), NewFiles(files, p, next, key);
    NewFilesHoldEntry(rings, files, p, rings.At(p).activeGeneration, next, key, now);
    GrownRings(p, rings.At(p), rings.At(OtherPurpose(p)), e, files, more);
    GrownSets(rings, p, PreparedRing(rings.At(p), e).generations, e, files.Keys, more.Keys);
    RingsWith(rings, p, PreparedRing(rings.At(p), e), more);
  }

  predicate Preparable(d: Directory, p: Purpose, next: int, key: KeyId) {
    && Verified(d.manifest, d.files)
    && next >= 1
    && !HasGeneration(Normalized(d.manifest).value.At(p).generations, next)
    && !KeyUsed(Normalized(d.manifest).value, key)
  }

  /** An accepted preparation leads to a verified directory that keeps every older file. */
  lemma PreparedVerified(d: Directory, p: Purpose, next: int, key: KeyId, now: Time)
    requires Preparable(d, p, next, key)
    ensures var d' := PreparedDirectory(d, p, next, key, now);
            && Verified(d'.manifest, d'.files)
            && KeyFile(p, next, Private) !in d.files
            && KeyFile(p, next, Public) !in d.files
            && Extension(d.files, d'.files)
  {
    var rings := Normalized(d.manifest).value;
    var e := GenerationEntry(p, next, key, Retired, now);
    var d' := PreparedDirectory(d, p, next, key, now);
    assert d'.files == NewFiles(d.files, p, next, key);
    assert Normalized(d'.manifest) == Some(rings.With(p, PreparedRing(rings.At(p), e)));
    PreparedRingsVerified(rings, d.files, p, next, key, now);
  }

  /** Without an explicit number the next generation is always free. */
  lemma NextGenerationIsFree(d: Directory, p: Purpose, requested: Option<int>, key: KeyId)
    requires Verified(d.manifest, d.files)
    requires requested.None? || requested.value == 0
    ensures PrepareCheck(d, Some(p), requested, key) != Err(GenerationExists)
  {
    var r := Normalized(d.manifest).value.At(p);
    assert RingSound(p, r, d.files);
    forall e | e in r.generations ensures 1 <= e.generation < NextGeneration(r.generations, requested) {
      assert EntrySound(p, r.activeGeneration, e, d.files);
    }
  }

  // ---- activate_generation and retire_generation ----

  /** The first entry carrying the number, as the source's `next(...)` finds it. */
  function Find(s: seq<Entry>, generation: int): (r: Option<Entry>)
    ensures r.Some? <==> HasGeneration(s, generation)
    ensures r.Some? ==> r.value in s && r.value.generation == generation
  {
    if s == [] then None
    else if s[0].generation == generation then Some(s[0])
    else
      assert s == [s[0]] + s[1..];
      Find(s[1..], generation)
  }

  function ActivateCheck(d: Directory, purpose: Option<Purpose>, generation: int, confirmed: bool): Result<(), KeysetError> {
    if !confirmed then Err(ConfirmationRequired)
    else if purpose.None? || generation < 1 then Err(GenerationInvalid)
    else if !Verified(d.manifest, d.files) then Err(VerifyFailed)
    else
      var target := Find(Normalized(d.manifest).value.At(purpose.value).generations, generation);
      if target.None? || target.value.privateFile.None? then Err(GenerationInvalid) else Ok(())
  }

  function ActivatedEntry(e: Entry, generation: int, now: Time): Entry {
    if e.generation == generation then e.(state := Active, retiredAt := None)
    else if e.state.Active? then e.(state := Retired, retiredAt := Some(now))
    else e
  }

  function ActivatedRing(r: Ring, generation: int, now: Time): Ring {
    Ring(generation,
         seq(|r.generations|, i requires 0 <= i < |r.generations| => ActivatedEntry(r.generations[i], generation, now)))
  }

  function ActivatedDirectory(d: Directory, p: Purpose, generation: int, now: Time): Directory
    requires Normalized(d.manifest).Some?
  {
    var rings := Normalized(d.manifest).value;
    d.(manifest := Current(SUITE_ID, rings.With(p, ActivatedRing(rings.At(p), generation, now))))
  }

  lemma FindUnique(s: seq<Entry>, generation: int, i: nat)
    requires Distinct(s) && i < |s| && s[i].generation == generation
    ensures Find(s, generation) == Some(s[i])
  {
    assert s[i] in s;
    var e := Find(s, generation).value;
    var j :| 0 <= j < |s| && s[j] == e;
    assert i == j;
  }

  /** A pointwise change of entries that keeps names and keys keeps the files and key ids. */
  lemma {:induction false} SameNamesAndKeys(s: seq<Entry>, s': seq<Entry>)
    requires |s| == |s'|
    requires forall i :: 0 <= i < |s| ==> EntryFiles(s[i]) == EntryFiles(s'[i]) && s[i].keyId == s'[i].keyId
    ensures FilesOf(s') == FilesOf(s) && KeyIds(s') == KeyIds(s)
  {
    if s != [] {
      SameNamesAndKeys(s[1..], s'[1..]);
    }
  }

  lemma ActivatedRingSound(p: Purpose, r: Ring, generation: int, now: Time, files: map<Name, Blob>)
    requires RingSound(p, r, files)
    requires Find(r.generations, generation).Some?
    requires Find(r.generations, generation).value.privateFile.Some?
    ensures RingSound(p, ActivatedRing(r, generation, now), files)
  {
    var s, s' := r.generations, ActivatedRing(r, generation, now).generations;
    forall i | 0 <= i < |s| ensures EntrySound(p, generation, s'[i], files) {
      assert EntrySound(p, r.activeGeneration, s[i], files);
      if s[i].generation == generation {
        FindUnique(s, generation, i);
      }
    }
    var j :| 0 <= j < |s| && s[j] == Find(s, generation).value;
    assert s'[j] in s' && s'[j].state.Active?;
    forall i, k | 0 <= i < k < |s| ensures Apart(s'[i], s'[k]) {
      assert Apart(s[i], s[k]);
    }
  }

  lemma ActivatedFiles(r: Ring, generation: int, now: Time)
    ensures FilesOf(ActivatedRing(r, generation, now).generations) == FilesOf(r.generations)
    ensures KeyIds(ActivatedRing(r, generation, now).generations) == KeyIds(r.generations)
  {
    SameNamesAndKeys(r.generations, ActivatedRing(r, generation, now).generations);
  }

  lemma ActivatedRingsVerified(rings: Rings, files: map<Name, Blob>, p: Purpose, generation: int, now: Time)
    requires RingsVerified(rings, files)
    requires Find(rings.At(p).generations, generation).Some?
    requires Find(rings.At(p).generations, generation).value.privateFile.Some?
    ensures RingsVerified(rings.With(p, ActivatedRing(rings.At(p), generation, now)), files)
  {
    ActivatedRingSound(p, rings.At(p), generation, now, files);
    ActivatedFiles(rings.At(p), generation, now);
    RingsWith(rings, p, ActivatedRing(rings.At(p), generation, now), files);
  }

  lemma ActivatedVerified(d: Directory, p: Purpose, generation: int, confirmed: bool, now: Time)
    requires ActivateCheck(d, Some(p), generation, confirmed).Ok?
    ensures var d' := ActivatedDirectory(d, p, generation, now); Verified(d'.manifest, d'.files)
  {
    ActivatedRingsVerified(Normalized(d.manifest).value, d.files, p, generation, now);
  }

  function RetireCheck(d: Directory, purpose: Option<Purpose>, generation: int, referenced: int, confirmed: bool)
    : Result<(), KeysetError>
  {
    if !confirmed then Err(ConfirmationRequired)
    else if purpose.None? || generation < 1 || referenced < 0 then Err(GenerationInvalid)
    else if referenced != 0 then Err(GenerationStillReferenced)
    else if !Verified(d.manifest, d.files) then Err(VerifyFailed)
    else
      var r := Normalized(d.manifest).value.At(purpose.value);
      var e := Find(r.generations, generation);
      if e.None? || !e.value.state.Retired? || e.value.generation == r.activeGeneration
      then Err(GenerationNotRetired) else Ok(())
  }

  function RetiredRing(r: Ring, generation: int): Ring {
    r.(generations := seq(|r.generations|, i requires 0 <= i < |r.generations| =>
         if r.generations[i].generation == generation then r.generations[i].(privateFile := None)
         else r.generations[i]))
  }

  /** Deletes the private key; a key already gone, or `deletePrivate` unset, changes nothing. */
  function RetiredDirectory(d: Directory, p: Purpose, generation: int, deletePrivate: bool): Directory
    requires Normalized(d.manifest).Some?
  {
    var rings := Normalized(d.manifest).value;
    var e := Find(rings.At(p).generations, generation);
    if deletePrivate && e.Some? && e.value.privateFile.Some? then
      Directory(Current(SUITE_ID, rings.With(p, RetiredRing(rings.At(p), generation))),
                d.files - {e.value.privateFile.value})
    else d
  }

  lemma RetiredRingSound(p: Purpose, r: Ring, generation: int, t: nat, files: map<Name, Blob>)
    requires RingSound(p, r, files)
    requires t < |r.generations| && r.generations[t].generation == generation
    requires r.generations[t].state.Retired? && r.generations[t].privateFile.Some?
    ensures RingSound(p, RetiredRing(r, generation), files - {KeyFile(p, generation, Private)})
  {
    var s, s' := r.generations, RetiredRing(r, generation).generations;
    var less := files - {KeyFile(p, generation, Private)};
    forall i | 0 <= i < |s| ensures EntrySound(p, r.activeGeneration, s'[i], less) {
      assert EntrySound(p, r.activeGeneration, s[i], files);
      if i != t {
        assert Apart(s[i], s[t]) || Apart(s[t], s[i]);
      }
    }
    var j :| 0 <= j < |s| && s[j].state.Active?;
    assert j != t;
    assert s'[j] in s' && s'[j].state.Active?;
    forall i, k | 0 <= i < k < |s| ensures Apart(s'[i], s'[k]) {
      assert Apart(s[i], s[k]);
    }
  }

  lemma {:induction false} RetiredFiles(s: seq<Entry>, s': seq<Entry>, t: nat, gone: Name)
    requires |s| == |s'| && t < |s|
    requires s[t].privateFile == Some(gone) && s'[t] == s[t].(privateFile := None)
    requires forall i :: 0 <= i < |s| && i != t ==> s'[i] == s[i]
    requires forall i :: 0 <= i < |s| ==> s[i].publicFile != gone && (i != t ==> s[i].privateFile != Some(gone))
    ensures FilesOf(s') == FilesOf(s) - {gone} && KeyIds(s') == KeyIds(s)
  {
    if t > 0 {
      RetiredFiles(s[1..], s'[1..], t - 1, gone);
    } else {
      SameNamesAndKeys(s[1..], s'[1..]);
      NotListed(s[1..], gone);
    }
  }

  lemma RetiredRingFiles(p: Purpose, r: Ring, generation: int, t: nat, files: map<Name, Blob>)
    requires RingSound(p, r, files)
    requires t < |r.generations| && r.generations[t].generation == generation
    requires r.generations[t].privateFile.Some?
    ensures FilesOf(RetiredRing(r, generation).generations) == FilesOf(r.generations) - {KeyFile(p, generation, Private)}
    ensures KeyIds(RetiredRing(r, generation).generations) == KeyIds(r.generations)
  {
    var s := r.generations;
    forall i | 0 <= i < |s|
      ensures EntrySound(p, r.activeGeneration, s[i], files)
      ensures i != t ==> s[i].generation != generation
    {
      assert s[i] in s;
      assert i < t ==> Apart(s[i], s[t]);
      assert t < i ==> Apart(s[t], s[i]);
    }
    RetiredFiles(s, RetiredRing(r, generation).generations, t, KeyFile(p, generation, Private));
  }

  lemma OtherRingUntouched(p: Purpose, q: Purpose, r: Ring, generation: int, files: map<Name, Blob>)
    requires p != q && RingSound(q, r, files)
    ensures RingSound(q, r, files - {KeyFile(p, generation, Private)})
    ensures KeyFile(p, generation, Private) !in FilesOf(r.generations)
  {
    var less := files - {KeyFile(p, generation, Private)};
    forall e | e in r.generations ensures EntrySound(q, r.activeGeneration, e, less) {
      assert EntrySound(q, r.activeGeneration, e, files);
    }
    NotListed(r.generations, KeyFile(p, generation, Private));
  }

  lemma RetiredRingsVerified(rings: Rings, files: map<Name, Blob>, p: Purpose, generation: int, t: nat)
    requires RingsVerified(rings, files)
    requires t < |rings.At(p).generations| && rings.At(p).generations[t].generation == generation
    requires rings.At(p).generations[t].state.Retired? && rings.At(p).generations[t].privateFile.Some?
    ensures RingsVerified(rings.With(p, RetiredRing(rings.At(p), generation)), files - {KeyFile(p, generation, Private)})
    ensures rings.At(p).generations[t].privateFile.value == KeyFile(p, generation, Private)
  {
    assert EntrySound(p, rings.At(p).activeGeneration, rings.At(p).generations[t], files);
    RetiredRingSound(p, rings.At(p), generation, t, files);
    RetiredRingFiles(p, rings.At(p), generation, t, files);
    OtherRingUntouched(p, OtherPurpose(p), rings.At(OtherPurpose(p)), generation, files);
    RingsWith(rings, p, RetiredRing(rings.At(p), generation), files - {KeyFile(p, generation, Private)});
  }

  lemma RetiredVerified(d: Directory, p: Purpose, generation: int, referenced: int, confirmed: bool, deletePrivate: bool)
    requires RetireCheck(d, Some(p), generation, referenced, confirmed).Ok?
    ensures var d' := RetiredDirectory(d, p, generation, deletePrivate); Verified(d'.manifest, d'.files)
  {
    var rings := Normalized(d.manifest).value;
    var s := rings.At(p).generations;
    var e := Find(s, generation).value;
    if deletePrivate && e.privateFile.Some? {
      var t :| 0 <= t < |s| && s[t] == e;
      RetiredRingsVerified(rings, d.files, p, generation, t);
    }
  }

  lemma RingSoundImpliesPresent(p: Purpose, r: Ring, files: map<Name, Blob>)
    requires RingSound(p, r, files)
    ensures RingPresent(r, files)
  {
    forall e | e in r.generations ensures EntrySound(p, r.activeGeneration, e, files) { }
  }

  lemma VerifiedImpliesNamedPresent(d: Directory)
    requires Verified(d.manifest, d.files)
    ensures NamedPresent(d)
  {
    RingSoundImpliesPresent(ImtSyncCredential, Normalized(d.manifest).value.imtSync, d.files);
    RingSoundImpliesPresent(PassServiceSession, Normalized(d.manifest).value.passService, d.files);
  }

  // ---- provision ----

  function InitialEntries(keys: seq<KeyId>, now: Time): seq<Entry>
    requires |keys| == |PURPOSES|
  {
    [GenerationEntry(ImtSyncCredential, 1, keys[0], Active, now),
     GenerationEntry(PassServiceSession, 1, keys[1], Active, now)]
  }

  function InitialFiles(keys: seq<KeyId>, n: nat): map<Name, Blob>
    requires n <= |keys| == |PURPOSES|
  {
    if n == 0 then map[] else NewFiles(InitialFiles(keys, n - 1), PURPOSES[n - 1], 1, keys[n - 1])
  }

  function InitialDirectory(keys: seq<KeyId>, now: Time): Directory
    requires |keys| == |PURPOSES|
  {
    Directory(Current(SUITE_ID, InitialRings(InitialEntries(keys, now)[0], InitialEntries(keys, now)[1])),
              InitialFiles(keys, 2))
  }

  lemma InitialRingSound(p: Purpose, key: KeyId, now: Time, files: map<Name, Blob>)
    requires HoldsPublic(files, KeyFile(p, 1, Public), key) && HoldsPrivate(files, KeyFile(p, 1, Private), key)
    ensures RingSound(p, Ring(1, [GenerationEntry(p, 1, key, Active, now)]), files)
    ensures FilesOf([GenerationEntry(p, 1, key, Active, now)]) == {KeyFile(p, 1, Public), KeyFile(p, 1, Private)}
    ensures KeyIds([GenerationEntry(p, 1, key, Active, now)]) == {key}
  {
    var e := GenerationEntry(p, 1, key, Active, now);
    assert e in [e] && [e][1..] == [];
  }

  lemma InitialVerified(keys: seq<KeyId>, now: Time)
    requires |keys| == |PURPOSES| && keys[0] != keys[1]
    ensures var d := InitialDirectory(keys, now); Verified(d.manifest, d.files)
  {
    var files := InitialFiles(keys, 2);
    assert InitialFiles(keys, 1) == NewFiles(InitialFiles(keys, 0), ImtSyncCredential, 1, keys[0]);
    assert files == NewFiles(InitialFiles(keys, 1), PassServiceSession, 1, keys[1]);
    InitialRingSound(ImtSyncCredential, keys[0], now, files);
    InitialRingSound(PassServiceSession, keys[1], now, files);
  }
}
