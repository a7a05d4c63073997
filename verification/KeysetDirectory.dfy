/** The keyset directory as an object whose operations run ordered primitives, any of which
    may fail, with the rollback each operation carries out by hand. */
module KeysetDirectories {
  import opened Wrappers
  import opened KeysetNames
  import opened Keyset

  /** What the environment does at a primitive: let it complete, refuse it with no effect, or
      make it raise after its effect (a directory sync failing after the rename, or a file
      created but cut short). A primitive that has no such half-way point treats Late as Refused. */
  datatype Fault = Fine | Refused | Late

  lemma RingPresentExtended(r: Ring, files: map<Name, Blob>, more: map<Name, Blob>)
    requires RingPresent(r, files) && Extension(files, more)
    ensures RingPresent(r, more)
  {
  }

  lemma PresentExtended(d: Directory, more: map<Name, Blob>)
    requires NamedPresent(d) && Extension(d.files, more)
    ensures NamedPresent(Directory(d.manifest, more))
  {
    RingPresentExtended(Normalized(d.manifest).value.imtSync, d.files, more);
    RingPresentExtended(Normalized(d.manifest).value.passService, d.files, more);
  }

  /** What the verification loop knows after its first `k` entries. */
  ghost predicate Scanned(
    p: Purpose, r: Ring, k: nat, files: map<Name, Blob>, generations: set<int>, active: int)
    requires k <= |r.generations|
  {
    var s := r.generations;
    && (forall i :: 0 <= i < k ==> EntrySound(p, r.activeGeneration, s[i], files))
    && (forall i :: 0 <= i < k ==> s[i].generation in generations)
    && (forall g :: g in generations ==> exists i :: 0 <= i < k && s[i].generation == g)
    && Distinct(s[..k])
    && 0 <= active <= 1
    && (active == 1 <==> exists i :: 0 <= i < k && s[i].state.Active?)
  }

  lemma ScanStep(
    p: Purpose, r: Ring, k: nat, files: map<Name, Blob>, generations: set<int>, active: int, observed: set<KeyId>)
    requires k < |r.generations| && Scanned(p, r, k, files, generations, active)
    requires r.generations[k].generation !in generations
    requires r.generations[k].keyId !in observed + KeyIds(r.generations[..k])
    requires EntrySound(p, r.activeGeneration, r.generations[k], files)
    ensures Scanned(p, r, k + 1, files, generations + {r.generations[k].generation},
                    active + if r.generations[k].state.Active? then 1 else 0)
    ensures KeyIds(r.generations[..k + 1]) == KeyIds(r.generations[..k]) + {r.generations[k].keyId}
    ensures FilesOf(r.generations[..k + 1]) == FilesOf(r.generations[..k]) + EntryFiles(r.generations[k])
  {
    var s, e := r.generations, r.generations[k];
    assert s[..k + 1] == s[..k] + [e];
    AppendFiles(s[..k], e);
    forall i | 0 <= i < k ensures Apart(s[i], e) {
      OwnFilesListed(s[..k], i);
    }
    forall i | 0 <= i < k && e.state.Active? ensures !s[i].state.Active? {
      assert EntrySound(p, r.activeGeneration, s[i], files);
      assert Apart(s[i], e);
    }
    assert Distinct(s[..k + 1]) by {
      forall i, j | 0 <= i < j < k + 1 ensures Apart(s[i], s[j]) {
        if j < k {
          assert Apart(s[..k][i], s[..k][j]);
        }
      }
    }
  }

  lemma ScanRefuses(
    p: Purpose, r: Ring, k: nat, files: map<Name, Blob>, generations: set<int>, active: int, observed: set<KeyId>)
    requires k < |r.generations| && Scanned(p, r, k, files, generations, active)
    requires r.generations[k].generation in generations
          || r.generations[k].keyId in observed + KeyIds(r.generations[..k])
          || !EntrySound(p, r.activeGeneration, r.generations[k], files)
    ensures !(RingSound(p, r, files) && KeyIds(r.generations) !! observed)
  {
    var s, e := r.generations, r.generations[k];
    if !EntrySound(p, r.activeGeneration, e, files) {
      assert e in s;
    } else if e.generation in generations {
      var i :| 0 <= i < k && s[i].generation == e.generation;
      assert !Apart(s[i], s[k]);
    } else {
      KeyIdClash(s, k, observed);
    }
  }

  lemma ScanDone(p: Purpose, r: Ring, files: map<Name, Blob>, generations: set<int>, active: int)
    requires Scanned(p, r, |r.generations|, files, generations, active)
    ensures RingSound(p, r, files) <==> active == 1
  {
    var s := r.generations;
    assert s[..|s|] == s;
    if active == 1 {
      var i :| 0 <= i < |s| && s[i].state.Active?;
      assert s[i] in s;
    }
  }

  /** A key id already seen means two entries share it, or it belongs to the other purpose. */
  lemma KeyIdClash(s: seq<Entry>, k: nat, observed: set<KeyId>)
    requires k < |s| && s[k].keyId in observed + KeyIds(s[..k])
    ensures !Distinct(s) || !(KeyIds(s) !! observed)
  {
    if s[k].keyId in observed {
      OwnFilesListed(s, k);
    } else {
      var i := KeyOwner(s[..k], s[k].keyId);
      assert !Apart(s[i], s[k]);
    }
  }

  lemma {:induction false} KeyOwner(s: seq<Entry>, key: KeyId) returns (i: nat)
    requires key in KeyIds(s)
    ensures i < |s| && s[i].keyId == key
  {
    if s[0].keyId == key {
      i := 0;
    } else {
      i := KeyOwner(s[1..], key);
      i := i + 1;
    }
  }

  // ---- What the environment decides ----

  /** What happens at the i-th primitive. */
  type Environment = nat -> Fault

  predicate Completes(env: Environment, at: nat, n: nat) {
    forall i :: at <= i < at + n ==> env(i).Fine?
  }

  /** What a directory whose verification fails looks like to the checks. */
  const UNREADABLE := Directory(Malformed, map[])

  /** The result of an operation whose checks say `c` on the directory as it is and `unread` if its
      verification, the first primitive, fails. */
  predicate Answers<T(==)>(
    c: Result<T, KeysetError>, unread: Result<T, KeysetError>, r: Result<T, KeysetError>, verified: bool, completes: bool)
  {
    r == if !verified then unread else if c.Ok? && !completes then Err(PrimitiveFailed) else c
  }

  /** An operation leaves the directory before it or the one it aims at exactly under these
      conditions, and otherwise one that does not verify. */
  ghost predicate Ends(d0: Directory, d1: Directory, restores: bool, installs: bool, d: Directory) {
    && (d == d0 <==> restores) && (d == d1 <==> installs)
    && (Verified(d.manifest, d.files) <==> restores || installs)
  }

  // For each operation, `at` is the verification that opens it.

  /** A preparation undone: the verification failed, or a write or the replacement was refused
      without effect, or the last check failed, and each step of the rollback succeeded. */
  predicate PreparationRestores(env: Environment, at: nat) {
    if !env(at).Fine? then true
    else if !env(at + 1).Fine? then env(at + 1).Refused?
    else if !env(at + 2).Fine? then env(at + 2).Refused? && env(at + 3).Fine?
    else if !env(at + 3).Fine? then env(at + 3).Refused? && env(at + 4).Fine? && env(at + 5).Fine?
    else !env(at + 4).Fine? && env(at + 5).Fine? && env(at + 6).Fine? && env(at + 7).Fine?
  }

  /** A preparation in place: completed, or failed with a rollback that changed nothing. */
  predicate PreparationInstalls(env: Environment, at: nat) {
    && Completes(env, at, 3)
    && match env(at + 3)
       case Refused => false
       case Late => !env(at + 4).Fine? && !env(at + 5).Fine?
       case Fine => env(at + 4).Fine? || env(at + 5).Refused?
  }

  /** The manifest replacement of a preparation fails after the rename. */
  predicate LateReplacement(env: Environment, at: nat) {
    env(at).Fine? && LateThird(env, at + 1)
  }

  /** Two writes complete, and the replacement after them fails after the rename. */
  predicate LateThird(env: Environment, at: nat) {
    env(at).Fine? && env(at + 1).Fine? && env(at + 2).Late?
  }

  /** After such a failure, at least one of the two new files is unlinked by the rollback. */
  predicate LosesNewFile(env: Environment, at: nat) {
    env(at).Fine? && LosesThird(env, at + 1)
  }

  predicate LosesThird(env: Environment, at: nat) {
    LateThird(env, at) && (env(at + 3).Fine? || env(at + 4).Fine?)
  }

  /** A replacement, a verification, and the replacement that undoes the first; the first primitive
      is number `at`. */
  predicate SwapRestores(env: Environment, at: nat) {
    match env(at)
    case Refused => true
    case Late => !env(at + 1).Refused?
    case Fine => !env(at + 1).Fine? && !env(at + 2).Refused?
  }

  /** Restored are exactly the runs in which nothing was installed, or something failed and the
      replacement that follows took effect. */
  lemma SwapMeans(env: Environment, at: nat)
    ensures SwapRestores(env, at) <==>
              || env(at).Refused?
              || (!Completes(env, at, 2) && !env(if env(at).Fine? then at + 2 else at + 1).Refused?)
  {
  }

  predicate ActivationRestores(env: Environment, at: nat) {
    !env(at).Fine? || SwapRestores(env, at + 1)
  }

  /** Where the rollback of a retirement rewrites the deleted key: after the sync or after the
      verification, whichever failed. */
  function Rewriting(env: Environment, at: nat): nat {
    if env(at + 4).Fine? then at + 6 else at + 5
  }

  /** A retirement with a key to delete is undone: verification, reading the key, replacing the
      manifest, unlinking, the sync or the last verification failed, and the manifest, with the key
      before it if that was gone, came back. */
  predicate RetirementRestores(env: Environment, at: nat) {
    if !env(at).Fine? || !env(at + 1).Fine? || env(at + 2).Refused? then true
    else if env(at + 2).Late? then !env(at + 3).Refused?
    else if !env(at + 3).Fine? then !env(at + 4).Refused?
    else
      && !(env(at + 4).Fine? && env(at + 5).Fine?)
      && env(Rewriting(env, at)).Fine? && !env(Rewriting(env, at) + 1).Refused?
  }

  predicate RetirementInstalls(env: Environment, at: nat) {
    && Completes(env, at, 4)
    && (Completes(env, at + 4, 2) || env(Rewriting(env, at)).Refused?)
  }

  /** From `at` on, only the k-th primitive fails; its rollback succeeds. */
  ghost predicate OneFailure(env: Environment, at: nat, k: nat) {
    !env(at + k).Fine? && forall i :: i >= at && i != at + k ==> env(i).Fine?
  }

  /** When one primitive of an operation fails and its rollback succeeds, the directory is restored,
      except by a preparation whose write or replacement fails half-way. */
  lemma OneFailureRestores(env: Environment, at: nat, k: nat)
    requires OneFailure(env, at, k)
    ensures k <= 4 ==> (PreparationRestores(env, at) <==> !(1 <= k <= 3 && env(at + k).Late?))
    ensures k <= 2 ==> ActivationRestores(env, at)
    ensures k <= 5 ==> RetirementRestores(env, at)
  {
  }

  /** No primitive fails half-way, and of any four in a row at most one fails. */
  ghost predicate Sparse(env: Environment) {
    && (forall i :: !env(i).Late?)
    && forall i, j :: i < j <= i + 3 && env(i).Refused? ==> env(j).Fine?
  }

  /** Then a rollback always succeeds: every operation is done or undone, and undone if it fails. */
  lemma SparseFailures(env: Environment, at: nat)
    requires Sparse(env)
    ensures if Completes(env, at, 5) then PreparationInstalls(env, at) else PreparationRestores(env, at)
    ensures Completes(env, at, 3) || ActivationRestores(env, at)
    ensures if Completes(env, at, 6) then RetirementInstalls(env, at) else RetirementRestores(env, at)
  {
    assert !env(at).Late? && !env(at + 1).Late? && !env(at + 2).Late? && !env(at + 3).Late?;
    assert !env(at + 4).Late? && !env(at + 5).Late? && !env(at + 6).Late? && !env(at + 7).Late?;
  }

  // ---- What a preparation leaves ----

  /** Every directory a preparation can pass through: older files are never touched. */
  ghost predicate PrepareReaches(d0: Directory, d1: Directory, d: Directory) {
    Extension(d0.files, d.files) && (d.manifest == d0.manifest || d.manifest == d1.manifest)
  }

  /** The files after the two writes, `at` the first: a write that fails half-way leaves its name. */
  function WrittenFiles(
    files: map<Name, Blob>, more: map<Name, Blob>, priv: Name, pub: Name, env: Environment, at: nat): map<Name, Blob>
    requires priv in more
  {
    match env(at)
    case Refused => files
    case Late => files[priv := Foreign]
    case Fine =>
      match env(at + 1)
      case Refused => files[priv := more[priv]]
      case Late => files[priv := more[priv]][pub := Foreign]
      case Fine => more
  }

  /** Where the two writes stopped, after `n` primitives, and the names the rollback will know of. */
  ghost predicate FilesStage(
    d0: Directory, more: map<Name, Blob>, priv: Name, pub: Name, env: Environment, at: nat,
    n: int, ok: bool, created: seq<Name>, d: Directory)
  {
    && priv in more && d == d0.(files := WrittenFiles(d0.files, more, priv, pub, env, at))
    && (ok <==> env(at).Fine? && env(at + 1).Fine?)
    && n == (if env(at).Fine? then 2 else 1)
    && created == (if ok then [priv, pub] else if n == 2 then [priv] else [])
  }

  /** Where the writing part of a preparation stopped, and what it leaves to the rollback. Its four
      primitives are two writes, the manifest replacement and the verification. */
  ghost predicate WriteStage(
    d0: Directory, d1: Directory, priv: Name, pub: Name, env: Environment, at: nat,
    n: int, ok: bool, created: seq<Name>, replaced: bool, d: Directory)
  {
    if !(env(at).Fine? && env(at + 1).Fine?)
    then !ok && !replaced && FilesStage(d0, d1.files, priv, pub, env, at, n, false, created, d)
    else
      && created == [priv, pub]
      && (replaced <==> env(at + 2).Fine?) && (ok <==> replaced && env(at + 3).Fine?)
      && n == (if replaced then 4 else 3)
      && d == Directory(if env(at + 2).Refused? then d0.manifest else d1.manifest, d1.files)
  }

  function Kept(files: map<Name, Blob>, name: Name, f: Fault): map<Name, Blob> {
    if f.Fine? then files - {name} else files
  }

  /** What is left after unlinking one name after another, `at` the first, passing over failures. */
  function Left(files: map<Name, Blob>, created: seq<Name>, env: Environment, at: nat): map<Name, Blob> {
    if created == [] then files
    else
      var last := |created| - 1;
      Kept(Left(files, created[..last], env, at), created[last], env(at + last))
  }

  lemma LeftOfTwo(files: map<Name, Blob>, a: Name, b: Name, env: Environment, at: nat)
    ensures Left(files, [a], env, at) == Kept(files, a, env(at))
    ensures Left(files, [a, b], env, at) == Kept(Kept(files, a, env(at)), b, env(at + 1))
  {
    assert [a][..0] == [] && [a, b][..1] == [a];
  }

  /** What a rollback leaves: the manifest first if it was replaced, and the files only after it. */
  function RolledBack(
    before: Directory, previous: Manifest, created: seq<Name>, replaced: bool, env: Environment, at: nat): Directory
  {
    if !replaced then before.(files := Left(before.files, created, env, at))
    else
      match env(at)
      case Refused => before
      case Late => before.(manifest := previous)
      case Fine => Directory(previous, Left(before.files, created, env, at + 1))
  }

  /** What a preparation leaves, `at` its first write. */
  function PreparationEnd(d0: Directory, d1: Directory, priv: Name, pub: Name, env: Environment, at: nat): Directory
    requires priv in d1.files
  {
    var written := WrittenFiles(d0.files, d1.files, priv, pub, env, at);
    if !env(at).Fine? then d0.(files := written)
    else if !env(at + 1).Fine? then d0.(files := Kept(written, priv, env(at + 2)))
    else
      match env(at + 2)
      case Refused => Directory(d0.manifest, Kept(Kept(d1.files, priv, env(at + 3)), pub, env(at + 4)))
      case Late => Directory(d1.manifest, Kept(Kept(d1.files, priv, env(at + 3)), pub, env(at + 4)))
      case Fine =>
        if env(at + 3).Fine? then d1
        else
          match env(at + 4)
          case Refused => d1
          case Late => Directory(d0.manifest, d1.files)
          case Fine => Directory(d0.manifest, Kept(Kept(d1.files, priv, env(at + 5)), pub, env(at + 6)))
  }

  lemma EndFits(
    d0: Directory, d1: Directory, priv: Name, pub: Name, env: Environment, at: nat,
    n: nat, ok: bool, created: seq<Name>, replaced: bool, middle: Directory, undoing: nat)
    requires priv in d1.files && WriteStage(d0, d1, priv, pub, env, at, n, ok, created, replaced, middle)
    requires undoing == at + n
    ensures ok <==> Completes(env, at, 4)
    ensures PreparationEnd(d0, d1, priv, pub, env, at)
            == if ok then middle else RolledBack(middle, d0.manifest, created, replaced, env, undoing)
  {
    if !ok {
      LeftOfTwo(middle.files, priv, pub, env, undoing);
      LeftOfTwo(middle.files, priv, pub, env, undoing + 1);
    }
  }

  ghost predicate NewGeneration(d0: Directory, d1: Directory, p: Purpose, e: Entry) {
    && NamedPresent(d0) && NamedPresent(d1)
    && e in Normalized(d1.manifest).value.At(p).generations
    && e.privateFile == Some(KeyFile(p, e.generation, Private)) && e.publicFile == KeyFile(p, e.generation, Public)
    && e.privateFile.value !in d0.files && e.publicFile !in d0.files
    && d1.files == NewFiles(d0.files, p, e.generation, e.keyId)
  }

  lemma NewGenerationFacts(d0: Directory, d1: Directory, p: Purpose, e: Entry)
    requires Preparable(d0, p, e.generation, e.keyId)
    requires e == GenerationEntry(p, e.generation, e.keyId, Retired, e.createdAt)
    requires d1 == PreparedDirectory(d0, p, e.generation, e.keyId, e.createdAt)
    ensures NewGeneration(d0, d1, p, e)
    ensures Verified(d1.manifest, d1.files)
    ensures d1 == Directory(PreparedManifest(Normalized(d0.manifest).value, p, e), NewFiles(d0.files, p, e.generation, e.keyId))
  {
    PreparedVerified(d0, p, e.generation, e.keyId, e.createdAt);
    VerifiedImpliesNamedPresent(d0);
    VerifiedImpliesNamedPresent(d1);
    assert e in SortByGeneration(Normalized(d0.manifest).value.At(p).generations + [e]);
  }

  /** Under one manifest only one set of files verifies. */
  lemma VerifiedFiles(d: Directory, d': Directory)
    requires Verified(d.manifest, d.files)
    ensures d'.manifest == d.manifest && Verified(d'.manifest, d'.files) ==> d'.files.Keys == d.files.Keys
  {
  }

  /** The old manifest over more files: restored, or holding files it does not name. */
  lemma OldManifestEnd(d0: Directory, d: Directory)
    requires Verified(d0.manifest, d0.files) && d.manifest == d0.manifest && Extension(d0.files, d.files)
    ensures NamedPresent(d)
    ensures d == d0 <==> d.files.Keys == d0.files.Keys
    ensures Verified(d.manifest, d.files) <==> d == d0
  {
    VerifiedImpliesNamedPresent(d0);
    PresentExtended(d0, d.files);
    VerifiedFiles(d0, d);
    if d.files.Keys == d0.files.Keys {
      assert d.files == d0.files;
    }
    assert d == Directory(d0.manifest, d.files);
  }

  /** The new manifest over the new files, less those unlinked. */
  lemma NewManifestEnd(d1: Directory, p: Purpose, e: Entry, f: Fault, g: Fault, d: Directory)
    requires Verified(d1.manifest, d1.files) && NamedPresent(d1) && e.privateFile.Some?
    requires e in Normalized(d1.manifest).value.At(p).generations
    requires d == d1.(files := Kept(Kept(d1.files, e.privateFile.value, f), e.publicFile, g))
    ensures d == d1 <==> !f.Fine? && !g.Fine?
    ensures NamedPresent(d) <==> d == d1
    ensures Verified(d.manifest, d.files) <==> d == d1
  {
    assert RingPresent(Normalized(d1.manifest).value.At(p), d1.files);
    if f.Fine? || g.Fine? {
      assert !RingPresent(Normalized(d1.manifest).value.At(p), d.files);
    }
    VerifiedFiles(d1, d);
  }

  /** Which keys a preparation leaves under the old manifest, and when the new one stays. */
  lemma EndKeys(d0: Directory, d1: Directory, p: Purpose, e: Entry, env: Environment, at: nat)
    requires NewGeneration(d0, d1, p, e) && env(at).Fine?
    ensures var priv, pub := e.privateFile.value, e.publicFile;
            var d := PreparationEnd(d0, d1, priv, pub, env, at + 1);
            var newer := NewerInstalled(env, at);
            && d.manifest == (if newer then d1.manifest else d0.manifest)
            && (newer ==> d.files == if LateReplacement(env, at) then Kept(Kept(d1.files, priv, env(at + 4)), pub, env(at + 5))
                                   else d1.files)
            && Extension(d0.files, d.files)
            && (!newer ==> (d.files.Keys == d0.files.Keys <==> PreparationRestores(env, at)))
  {
    var priv, pub := e.privateFile.value, e.publicFile;
    var written := WrittenFiles(d0.files, d1.files, priv, pub, env, at + 1);
    if !env(at + 1).Fine? {
      assert env(at + 1).Late? ==> priv in written;
    } else if LateReplacement(env, at) {
      StrayFiles(d0.files, d1.files, priv, pub, env(at + 4), env(at + 5));
    } else if !env(at + 2).Fine? {
      StrayFiles(d0.files, written, priv, pub, env(at + 3), Refused);
    } else if env(at + 3).Refused? {
      StrayFiles(d0.files, d1.files, priv, pub, env(at + 4), env(at + 5));
    } else if env(at + 3).Fine? && !env(at + 4).Fine? {
      StrayFiles(d0.files, d1.files, priv, pub, env(at + 6), env(at + 7));
    }
  }

  /** Unlinking two new names brings the old keys back exactly when it removes those present. */
  lemma StrayFiles(files: map<Name, Blob>, more: map<Name, Blob>, priv: Name, pub: Name, f: Fault, g: Fault)
    requires priv != pub && priv !in files && pub !in files && Extension(files, more)
    requires more.Keys == files.Keys + {priv, pub} || more.Keys == files.Keys + {priv}
    ensures var kept := Kept(Kept(more, priv, f), pub, g);
            && Extension(files, kept)
            && (kept.Keys == files.Keys <==> f.Fine? && (pub in more ==> g.Fine?))
  {
    var kept := Kept(Kept(more, priv, f), pub, g);
    assert priv in kept <==> !f.Fine?;
    assert pub in kept <==> pub in more && !g.Fine?;
  }

  /** When a preparation restores the directory, when its new generation stays, when the result
      verifies, and when the installed manifest's files are there. */
  lemma PreparationMeans(d0: Directory, d1: Directory, p: Purpose, e: Entry, env: Environment, at: nat)
    requires NewGeneration(d0, d1, p, e) && env(at).Fine?
    requires Verified(d0.manifest, d0.files) && Verified(d1.manifest, d1.files)
    ensures var d := PreparationEnd(d0, d1, e.privateFile.value, e.publicFile, env, at + 1);
            && Ends(d0, d1, PreparationRestores(env, at), PreparationInstalls(env, at), d)
            && (NamedPresent(d) <==> !LosesNewFile(env, at))
            && PrepareReaches(d0, d1, d)
  {
    var d := PreparationEnd(d0, d1, e.privateFile.value, e.publicFile, env, at + 1);
    EndKeys(d0, d1, p, e, env, at);
    NewManifestDiffers(d0, d1, p, e);
    NewerMeans(env, at);
    if LateReplacement(env, at) {
      NewManifestEnd(d1, p, e, env(at + 4), env(at + 5), d);
    } else if !NewerInstalled(env, at) {
      OldManifestEnd(d0, d);
    }
  }

  /** The manifest left is the new one. */
  predicate NewerInstalled(env: Environment, at: nat) {
    LateReplacement(env, at) || (Completes(env, at, 4) && (env(at + 4).Fine? || env(at + 5).Refused?))
  }

  lemma NewerMeans(env: Environment, at: nat)
    requires env(at).Fine?
    ensures LateReplacement(env, at) ==>
              !PreparationRestores(env, at) && (PreparationInstalls(env, at) <==> !LosesNewFile(env, at))
    ensures NewerInstalled(env, at) && !LateReplacement(env, at) ==>
              !PreparationRestores(env, at) && PreparationInstalls(env, at) && !LosesNewFile(env, at)
    ensures !NewerInstalled(env, at) ==> !PreparationInstalls(env, at) && !LosesNewFile(env, at)
  {
  }

  /** The old manifest does not name the new files. */
  lemma NewManifestDiffers(d0: Directory, d1: Directory, p: Purpose, e: Entry)
    requires NewGeneration(d0, d1, p, e)
    ensures d0.manifest != d1.manifest && Extension(d0.files, d1.files)
  {
    assert RingPresent(Normalized(d0.manifest).value.At(p), d0.files);
  }

  /** A state a preparation passes through: older files are there, and the new manifest is only
      installed over both new files unless the rollback is to lose one of them. */
  ghost predicate PreparationPasses(d0: Directory, d1: Directory, loses: bool, s: Directory) {
    && PrepareReaches(d0, d1, s)
    && (!loses ==> s.manifest == d0.manifest || s == d1)
  }

  /** None of these primitives completes. */
  predicate NoneCompletes(env: Environment, at: nat, n: nat) {
    forall i :: at <= i < at + n ==> !env(i).Fine?
  }

  /** `files` is `before` less some of `created`. */
  predicate Without(before: map<Name, Blob>, created: seq<Name>, files: map<Name, Blob>) {
    && (forall n :: n in before && n !in created ==> n in files)
    && (forall n :: n in files ==> n in before && files[n] == before[n])
  }

  /** A state that unlinking passes through. */
  ghost predicate Unlinking(before: Directory, created: seq<Name>, spared: bool, d: Directory) {
    && d.manifest == before.manifest && Without(before.files, created, d.files)
    && (spared ==> d.files == before.files)
  }

  /** A state a rollback from `middle` passes through; `spared` says that nothing will be unlinked. */
  ghost predicate RollbackPasses(
    middle: Directory, previous: Manifest, created: seq<Name>, replaced: bool, spared: bool, d: Directory)
  {
    && (spared ==> d.files == middle.files)
    && (d.manifest == middle.manifest || (replaced && d.manifest == previous))
    && Without(middle.files, created, d.files)
    && (replaced && d.manifest != previous ==> d.files == middle.files)
  }

  lemma RollbackState(
    d0: Directory, d1: Directory, priv: Name, pub: Name, env: Environment, at: nat,
    n: nat, created: seq<Name>, replaced: bool, middle: Directory, d: Directory)
    requires priv !in d0.files && pub !in d0.files && Extension(d0.files, d1.files)
    requires WriteStage(d0, d1, priv, pub, env, at, n, false, created, replaced, middle)
    requires RollbackPasses(middle, d0.manifest, created, replaced,
                            !replaced && NoneCompletes(env, at + n, |created|), d)
    ensures PreparationPasses(d0, d1, LosesThird(env, at), d)
  {
    if LateThird(env, at) && !LosesThird(env, at) {
      assert NoneCompletes(env, at + n, |created|);
    }
    forall n | n in d0.files ensures n in d.files && d.files[n] == d0.files[n] {
      assert n !in created;
      assert n in middle.files && middle.files[n] == d0.files[n];
    }
  }

  lemma RollbackStates(
    d0: Directory, d1: Directory, priv: Name, pub: Name, env: Environment, at: nat,
    n: nat, created: seq<Name>, replaced: bool, middle: Directory, undoing: nat, all: seq<Directory>, from: nat)
    requires priv !in d0.files && pub !in d0.files && Extension(d0.files, d1.files)
    requires WriteStage(d0, d1, priv, pub, env, at, n, false, created, replaced, middle)
    requires undoing == at + n
    requires forall k :: from <= k < |all| ==>
               RollbackPasses(middle, d0.manifest, created, replaced,
                              !replaced && NoneCompletes(env, undoing, |created|), all[k])
    ensures forall k :: from <= k < |all| ==> PreparationPasses(d0, d1, LosesThird(env, at), all[k])
  {
    forall k | from <= k < |all| ensures PreparationPasses(d0, d1, LosesThird(env, at), all[k]) {
      RollbackState(d0, d1, priv, pub, env, at, n, created, replaced, middle, all[k]);
    }
  }

  lemma PresentUnlessLate(d0: Directory, d1: Directory, d: Directory)
    requires NamedPresent(d0) && NamedPresent(d1)
    requires Extension(d0.files, d.files)
    requires d.manifest == d0.manifest || d == d1
    ensures NamedPresent(d)
  {
    if d.manifest == d0.manifest {
      PresentExtended(d0, d.files);
      assert d == Directory(d0.manifest, d.files);
    }
  }

  lemma NothingLost(before: map<Name, Blob>, files: map<Name, Blob>)
    requires Without(before, [], files)
    ensures files == before
  {
    assert forall n :: n in before ==> n in files;
  }

  /** What a preparation that passes its checks on `d0`, aiming at `d1`, leaves and goes through. */
  ghost predicate PreparationGuarantee(
    d0: Directory, d1: Directory, env: Environment, at: nat, all: seq<Directory>, from: nat, d: Directory)
  {
    // Undone, done, or neither; a sound directory is damaged exactly by a late replacement whose
    // rollback unlinks.
    && Ends(d0, d1, PreparationRestores(env, at), PreparationInstalls(env, at), d)
    && (NamedPresent(d) <==> !LosesNewFile(env, at))
    // Whatever fails, at every step older files keep their bytes ...
    && PrepareReaches(d0, d1, d) && (forall k :: from <= k < |all| ==> PrepareReaches(d0, d1, all[k]))
    // ... and the installed manifest names present files, unless that very damage is done.
    && (LosesNewFile(env, at) || forall k :: from <= k < |all| ==> NamedPresent(all[k]))
  }

  /** What its primitives do, `at` being the first write. */
  ghost predicate RunGuarantee(
    d0: Directory, d1: Directory, priv: Name, pub: Name, ok: bool, env: Environment, at: nat,
    all: seq<Directory>, from: nat, d: Directory)
  {
    && (ok <==> Completes(env, at, 4))
    && priv in d1.files && d == PreparationEnd(d0, d1, priv, pub, env, at)
    && (forall k :: from <= k < |all| ==> PreparationPasses(d0, d1, LosesThird(env, at), all[k]))
  }

  lemma PreparationOutcome(
    d0: Directory, d1: Directory, p: Purpose, e: Entry, ok: bool, env: Environment, at: nat,
    all: seq<Directory>, from: nat, d: Directory)
    requires NewGeneration(d0, d1, p, e) && env(at).Fine?
    requires Verified(d0.manifest, d0.files) && Verified(d1.manifest, d1.files)
    requires RunGuarantee(d0, d1, e.privateFile.value, e.publicFile, ok, env, at + 1, all, from, d)
    ensures ok <==> Completes(env, at, 5)
    ensures PreparationGuarantee(d0, d1, env, at, all, from, d)
  {
    PreparationMeans(d0, d1, p, e, env, at);
    OneThenRest(env, at, 4);
    forall k | from <= k < |all| && !LosesNewFile(env, at) ensures NamedPresent(all[k]) {
      PresentUnlessLate(d0, d1, all[k]);
    }
  }

  /** Everything a call of `prepare_rotation` promises, `at` being the number of its first
      primitive and `all[from..]` the states it passed through. */
  ghost predicate PrepareGuarantee(
    d0: Directory, purpose: Option<Purpose>, requested: Option<int>, key: KeyId, now: Time,
    r: Result<int, KeysetError>, env: Environment, at: nat, all: seq<Directory>, from: nat, d: Directory)
  {
    var c := PrepareCheck(d0, purpose, requested, key);
    && Answers(c, PrepareCheck(UNREADABLE, purpose, requested, key), r, env(at).Fine?, Completes(env, at, 5))
    && (c.Err? ==> d == d0 && forall k :: from <= k < |all| ==> all[k] == d0)
    && (c.Ok? ==> PreparationGuarantee(d0, PreparedDirectory(d0, purpose.value, c.value, key, now), env, at, all, from, d))
  }

  /** A call refused by its checks, or whose verification fails. */
  lemma CheckRefused(
    d0: Directory, purpose: Option<Purpose>, requested: Option<int>, key: KeyId, now: Time,
    r: Result<int, KeysetError>, env: Environment, at: nat, all: seq<Directory>, from: nat)
    requires var c := PrepareCheck(d0, purpose, requested, key);
             && Answers(c, PrepareCheck(UNREADABLE, purpose, requested, key), r, env(at).Fine?, Completes(env, at, 5))
             && (c.Ok? ==> !env(at).Fine?)
    requires forall k :: from <= k < |all| ==> all[k] == d0
    ensures PrepareGuarantee(d0, purpose, requested, key, now, r, env, at, all, from, d0)
  {
    var c := PrepareCheck(d0, purpose, requested, key);
    if c.Ok? {
      var e := GenerationEntry(purpose.value, c.value, key, Retired, now);
      var d1 := PreparedDirectory(d0, purpose.value, c.value, key, now);
      NewGenerationFacts(d0, d1, purpose.value, e);
      NothingDone(d0, d1, purpose.value, e, env, at, all, from);
    }
  }

  lemma NothingDone(
    d0: Directory, d1: Directory, p: Purpose, e: Entry, env: Environment, at: nat, all: seq<Directory>, from: nat)
    requires Verified(d0.manifest, d0.files) && NewGeneration(d0, d1, p, e) && !env(at).Fine?
    requires forall k :: from <= k < |all| ==> all[k] == d0
    ensures PreparationGuarantee(d0, d1, env, at, all, from, d0)
  {
    NewManifestDiffers(d0, d1, p, e);
  }

  /** A call whose checks passed, its own verification being its first state. */
  lemma CheckPassed(
    d0: Directory, p: Purpose, requested: Option<int>, key: KeyId, now: Time,
    next: int, ok: bool, env: Environment, at: nat, all: seq<Directory>, from: nat, d: Directory)
    requires PrepareCheck(d0, Some(p), requested, key) == Ok(next) && Verified(d0.manifest, d0.files)
    requires env(at).Fine? && (ok <==> Completes(env, at, 5))
    requires from < |all| && all[from] == d0
    requires PreparationGuarantee(d0, PreparedDirectory(d0, p, next, key, now), env, at, all, from + 1, d)
    ensures PrepareGuarantee(d0, Some(p), requested, key, now, if ok then Ok(next) else Err(PrimitiveFailed),
                             env, at, all, from, d)
  {
    OneStateBefore(d0, PreparedDirectory(d0, p, next, key, now), env, at, all, from, d);
  }

  lemma OneStateBefore(
    d0: Directory, d1: Directory, env: Environment, at: nat, all: seq<Directory>, from: nat, d: Directory)
    requires Verified(d0.manifest, d0.files)
    requires from < |all| && all[from] == d0 && PreparationGuarantee(d0, d1, env, at, all, from + 1, d)
    ensures PreparationGuarantee(d0, d1, env, at, all, from, d)
  {
    VerifiedImpliesNamedPresent(d0);
  }

  // ---- What an activation leaves ----

  /** Everything a call of `activate_generation` promises: at every step the directory is the one
      before or the activated one, and which of the two is left. */
  ghost predicate ActivateGuarantee(
    d0: Directory, purpose: Option<Purpose>, generation: int, confirmed: bool, now: Time,
    r: Result<(), KeysetError>, env: Environment, at: nat, all: seq<Directory>, from: nat, d: Directory)
  {
    var c := ActivateCheck(d0, purpose, generation, confirmed);
    && Answers(c, ActivateCheck(UNREADABLE, purpose, generation, confirmed), r, env(at).Fine?, Completes(env, at, 3))
    && (c.Err? ==> d == d0)
    && (c.Ok? ==> d == if ActivationRestores(env, at) then d0 else ActivatedDirectory(d0, purpose.value, generation, now))
    && (forall k :: from <= k < |all| ==>
          all[k] == d0 || (c.Ok? && all[k] == ActivatedDirectory(d0, purpose.value, generation, now)))
  }

  /** What replacing only the manifest does, with its rollback. */
  ghost predicate SwapGuarantee(
    d0: Directory, d1: Directory, ok: bool, env: Environment, at: nat, all: seq<Directory>, from: nat, d: Directory)
  {
    && (ok <==> Completes(env, at, 2))
    && d == (if SwapRestores(env, at) then d0 else d1)
    && (forall k :: from <= k < |all| ==> all[k] == d0 || all[k] == d1)
  }

  lemma ActivationEnds(
    d0: Directory, purpose: Option<Purpose>, generation: int, confirmed: bool, now: Time,
    ok: bool, env: Environment, at: nat, all: seq<Directory>, from: nat, d: Directory)
    requires ActivateCheck(d0, purpose, generation, confirmed).Ok? && env(at).Fine?
    requires from < |all| && all[from] == d0
    requires SwapGuarantee(d0, ActivatedDirectory(d0, purpose.value, generation, now), ok, env, at + 1, all, from + 1, d)
    ensures ActivateGuarantee(d0, purpose, generation, confirmed, now, if ok then Ok(()) else Err(PrimitiveFailed),
                              env, at, all, from, d)
  {
    OneThenRest(env, at, 2);
  }

  lemma OneThenRest(env: Environment, at: nat, n: nat)
    ensures Completes(env, at, n + 1) <==> env(at).Fine? && Completes(env, at + 1, n)
  {
  }

  // ---- What a retirement leaves ----

  /** An accepted retirement has a private key to delete. */
  predicate HasKeyToDelete(d: Directory, p: Purpose, generation: int, deletePrivate: bool) {
    && deletePrivate && Normalized(d.manifest).Some?
    && var e := Find(Normalized(d.manifest).value.At(p).generations, generation);
    e.Some? && e.value.privateFile.Some?
  }

  ghost predicate RetireReaches(d1: Directory, d: Directory) {
    d.manifest == d1.manifest && Extension(d1.files, d.files)
  }

  /** Everything a call of `retire_generation` promises: at every step the directory is the one
      before, or the retired manifest is installed over at least the files it names. */
  ghost predicate RetireGuarantee(
    d0: Directory, purpose: Option<Purpose>, generation: int, referenced: int, deletePrivate: bool, confirmed: bool,
    r: Result<(), KeysetError>, env: Environment, at: nat, all: seq<Directory>, from: nat, d: Directory)
  {
    var c := RetireCheck(d0, purpose, generation, referenced, confirmed);
    && Answers(c, RetireCheck(UNREADABLE, purpose, generation, referenced, confirmed), r, env(at).Fine?,
               Completes(env, at, if c.Ok? && HasKeyToDelete(d0, purpose.value, generation, deletePrivate) then 6 else 2))
    && (c.Err? ==> d == d0)
    && (c.Ok? && !HasKeyToDelete(d0, purpose.value, generation, deletePrivate) ==> d == d0)
    && (c.Ok? && HasKeyToDelete(d0, purpose.value, generation, deletePrivate) ==>
          Ends(d0, RetiredDirectory(d0, purpose.value, generation, deletePrivate),
               RetirementRestores(env, at), RetirementInstalls(env, at), d))
    && (d == d0 || (c.Ok? && RetireReaches(RetiredDirectory(d0, purpose.value, generation, deletePrivate), d)))
    && (forall k :: from <= k < |all| ==>
          all[k] == d0
          || (c.Ok? && RetireReaches(RetiredDirectory(d0, purpose.value, generation, deletePrivate), all[k])))
  }

  /** What the part after the checks guarantees, with a key to delete or without. */
  ghost predicate RemovalGuarantee(
    d0: Directory, d1: Directory, deletes: bool, ok: bool, env: Environment, at: nat,
    all: seq<Directory>, from: nat, d: Directory)
  {
    && (ok <==> Completes(env, at, if deletes then 6 else 2))
    && (if deletes then Ends(d0, d1, RetirementRestores(env, at), RetirementInstalls(env, at), d) else d == d0)
    && (d == d0 || RetireReaches(d1, d))
    && (forall k :: from <= k < |all| ==> all[k] == d0 || RetireReaches(d1, all[k]))
  }

  lemma RetirementEnds(
    d0: Directory, purpose: Option<Purpose>, generation: int, referenced: int, deletePrivate: bool, confirmed: bool,
    ok: bool, env: Environment, at: nat, all: seq<Directory>, from: nat, d: Directory)
    requires RetireCheck(d0, purpose, generation, referenced, confirmed).Ok? && env(at).Fine?
    requires from < |all| && all[from] == d0
    requires RemovalGuarantee(d0, RetiredDirectory(d0, purpose.value, generation, deletePrivate),
                              HasKeyToDelete(d0, purpose.value, generation, deletePrivate), ok, env, at, all, from + 1, d)
    ensures RetireGuarantee(d0, purpose, generation, referenced, deletePrivate, confirmed,
                            if ok then Ok(()) else Err(PrimitiveFailed), env, at, all, from, d)
  {
  }

  lemma RetirementRefused(
    d0: Directory, purpose: Option<Purpose>, generation: int, referenced: int, deletePrivate: bool, confirmed: bool,
    r: Result<(), KeysetError>, env: Environment, at: nat, all: seq<Directory>, from: nat)
    requires var c := RetireCheck(d0, purpose, generation, referenced, confirmed);
             && Answers(c, RetireCheck(UNREADABLE, purpose, generation, referenced, confirmed), r, env(at).Fine?, false)
             && (c.Ok? ==> !env(at).Fine?)
    requires forall k :: from <= k < |all| ==> all[k] == d0
    ensures RetireGuarantee(d0, purpose, generation, referenced, deletePrivate, confirmed, r, env, at, all, from, d0)
  {
    if RetireCheck(d0, purpose, generation, referenced, confirmed).Ok? {
      RetiredVerified(d0, purpose.value, generation, referenced, confirmed, deletePrivate);
      if HasKeyToDelete(d0, purpose.value, generation, deletePrivate) {
        RetiredLacksKey(d0, purpose.value, generation);
      }
    }
  }

  /** Deleting a private key changes the directory. */
  lemma RetiredLacksKey(d: Directory, p: Purpose, generation: int)
    requires Verified(d.manifest, d.files) && HasKeyToDelete(d, p, generation, true)
    ensures var rings := Normalized(d.manifest).value;
            var name := Find(rings.At(p).generations, generation).value.privateFile.value;
            && name in d.files
            && RetiredDirectory(d, p, generation, true)
               == Directory(Current(SUITE_ID, rings.With(p, RetiredRing(rings.At(p), generation))), d.files - {name})
  {
    var rings := Normalized(d.manifest).value;
    NamedFilePresent(rings, d.files, p, Find(rings.At(p).generations, generation).value);
  }

  lemma NamedFilePresent(rings: Rings, files: map<Name, Blob>, p: Purpose, e: Entry)
    requires RingsVerified(rings, files) && e in rings.At(p).generations && e.privateFile.Some?
    ensures e.privateFile.value in files && files[e.privateFile.value] == PrivateRaw(e.keyId)
  {
    assert EntrySound(p, rings.At(p).activeGeneration, e, files);
  }

  /** Where removing a private key stopped: backup read, manifest replaced, file unlinked, synced. */
  ghost predicate RemovalStage(
    d0: Directory, d1: Directory, env: Environment, at: nat, n: int, ok: bool, deleted: bool, d: Directory)
  {
    if !env(at).Fine? then n == 1 && !ok && !deleted && d == d0
    else if !env(at + 1).Fine? then
      n == 2 && !ok && !deleted && d == d0.(manifest := if env(at + 1).Late? then d1.manifest else d0.manifest)
    else if !env(at + 2).Fine? then n == 3 && !ok && !deleted && d == d0.(manifest := d1.manifest)
    else n == 4 && deleted && (ok <==> env(at + 3).Fine?) && d == d1
  }

  /** What undoing a removal leaves: a deleted key first, and the manifest only after it. */
  function Undone(
    before: Directory, name: Name, backup: Option<Blob>, deleted: bool, previous: Manifest, env: Environment, at: nat): Directory
    requires deleted ==> backup.Some?
  {
    if !deleted then before.(manifest := if env(at).Refused? then before.manifest else previous)
    else
      match env(at)
      case Refused => before
      case Late => before.(files := before.files[name := Foreign])
      case Fine =>
        Directory(if env(at + 1).Refused? then before.manifest else previous, before.files[name := backup.value])
  }

  /** A state undoing a removal passes through. */
  ghost predicate UndoPasses(
    before: Directory, name: Name, backup: Option<Blob>, deleted: bool, previous: Manifest, s: Directory)
    requires deleted ==> backup.Some?
  {
    || s == Directory(previous, if deleted then before.files[name := backup.value] else before.files)
    || s == before
    || (deleted && s.manifest == before.manifest && Extension(before.files, s.files))
  }

  lemma UndoStates(
    d0: Directory, d1: Directory, name: Name, env: Environment, at: nat, n: nat, ok: bool, deleted: bool,
    backup: Option<Blob>, middle: Directory, all: seq<Directory>, from: nat)
    requires name in d0.files && d1.files == d0.files - {name}
    requires RemovalStage(d0, d1, env, at, n, ok, deleted, middle) && (deleted ==> backup == Some(d0.files[name]))
    requires forall k :: from <= k < |all| ==> UndoPasses(middle, name, backup, deleted, d0.manifest, all[k])
    ensures forall k :: from <= k < |all| ==> all[k] == d0 || RetireReaches(d1, all[k])
  {
    assert (d0.files - {name})[name := d0.files[name]] == d0.files;
  }

  /** What a removal leaves, `at` the backup. */
  function RemovalEnd(d0: Directory, d1: Directory, name: Name, env: Environment, at: nat): Directory {
    var exposed := d0.(manifest := d1.manifest);   // the retired manifest over the key still there
    if !env(at).Fine? || env(at + 1).Refused? then d0
    else if env(at + 1).Late? then if env(at + 2).Refused? then exposed else d0
    else if !env(at + 2).Fine? then if env(at + 3).Refused? then exposed else d0
    else if env(at + 3).Fine? && env(at + 4).Fine? then d1
    else
      var q := if env(at + 3).Fine? then at + 5 else at + 4;
      match env(q)
      case Refused => d1
      case Late => d1.(files := d1.files[name := Foreign])
      case Fine => if env(q + 1).Refused? then exposed else d0
  }

  /** `verified` says whether the verification that follows a removal completes, and `undoing` is
      the first primitive after it. */
  lemma RemovalFits(
    d0: Directory, d1: Directory, name: Name, env: Environment, at: nat, n: nat, ok: bool, deleted: bool,
    backup: Option<Blob>, middle: Directory, verified: bool, undoing: nat)
    requires name in d0.files && d1.files == d0.files - {name}
    requires RemovalStage(d0, d1, env, at, n, ok, deleted, middle) && (deleted ==> backup == Some(d0.files[name]))
    requires verified == (ok && env(at + 4).Fine?) && undoing == at + n + if ok then 1 else 0
    ensures verified <==> Completes(env, at, 5)
    ensures RemovalEnd(d0, d1, name, env, at)
            == if verified then middle else Undone(middle, name, backup, deleted, d0.manifest, env, undoing)
  {
    assert (d0.files - {name})[name := d0.files[name]] == d0.files;
  }

  /** The four ends of a removal are different, and only two of them verify. */
  lemma RemovalEndsApart(d0: Directory, d1: Directory, name: Name)
    requires Verified(d0.manifest, d0.files) && Verified(d1.manifest, d1.files)
    requires name in d0.files && d1.files == d0.files - {name}
    ensures var exposed, cut := d0.(manifest := d1.manifest), d1.(files := d1.files[name := Foreign]);
            && d0.manifest != d1.manifest && exposed != d1 && cut != d1
            && !Verified(exposed.manifest, exposed.files) && !Verified(cut.manifest, cut.files)
            && RetireReaches(d1, exposed) && RetireReaches(d1, cut)
  {
    assert name !in d1.files && name in d1.files[name := Foreign];
    VerifiedFiles(d0, d1);
    VerifiedFiles(d1, d0.(manifest := d1.manifest));
    VerifiedFiles(d1, d1.(files := d1.files[name := Foreign]));
  }

  lemma RemovalMeans(d0: Directory, d1: Directory, name: Name, env: Environment, at: nat)
    requires Verified(d0.manifest, d0.files) && Verified(d1.manifest, d1.files) && env(at).Fine?
    requires name in d0.files && d1.files == d0.files - {name}
    ensures var d := RemovalEnd(d0, d1, name, env, at + 1);
            && Ends(d0, d1, RetirementRestores(env, at), RetirementInstalls(env, at), d)
            && (d == d0 || RetireReaches(d1, d))
  {
    RemovalEndsApart(d0, d1, name);
    RemovalCases(d0, d1, name, env, at);
  }

  lemma RemovalCases(d0: Directory, d1: Directory, name: Name, env: Environment, at: nat)
    requires env(at).Fine?
    ensures var d := RemovalEnd(d0, d1, name, env, at + 1);
            if RetirementRestores(env, at) then d == d0 && !RetirementInstalls(env, at)
            else if RetirementInstalls(env, at) then d == d1
            else d == d0.(manifest := d1.manifest) || d == d1.(files := d1.files[name := Foreign])
  {
  }

  lemma ActiveExists(rings: Rings, files: map<Name, Blob>, p: Purpose)
    requires RingsVerified(rings, files)
    ensures rings.At(p).generations != []
  {
    var e :| e in rings.At(p).generations && e.state.Active?;
  }

  class KeysetDirectory {
    var manifest: Manifest
    var files: map<Name, Blob>
    const environment: Environment
    var steps: nat                     // the number of primitives so far
    ghost var states: seq<Directory>   // the directory after every primitive so far

    constructor (manifest: Manifest, files: map<Name, Blob>, environment: Environment)
      ensures Contents() == Directory(manifest, files) && this.environment == environment
      ensures steps == 0 && states == []
    {
      this.manifest, this.files, this.environment := manifest, files, environment;
      steps, states := 0, [];
    }

    function Contents(): Directory
      reads this
    {
      Directory(manifest, files)
    }

    method NextOutcome() returns (f: Fault)
      modifies this`steps
      ensures f == environment(old(steps)) && steps == old(steps) + 1
    {
      f := environment(steps);
      steps := steps + 1;
    }

    // ---- Primitives ----

    method WriteExclusive(name: Name, value: Blob) returns (ok: bool)
      modifies this
      ensures steps == old(steps) + 1 && states == old(states) + [Contents()]
      ensures manifest == old(manifest)
      ensures ok <==> environment(old(steps)).Fine? && name !in old(files)
      ensures files == if name in old(files) || environment(old(steps)).Refused? then old(files)
                       else old(files)[name := if environment(old(steps)).Fine? then value else Foreign]
    {
      var outcome := NextOutcome();
      ok := outcome.Fine? && name !in files;
      if name !in files && !outcome.Refused? {
        files := files[name := if outcome.Fine? then value else Foreign];
      }
      states := states + [Contents()];
    }

    method ReplaceManifest(m: Manifest) returns (ok: bool)
      modifies this
      ensures steps == old(steps) + 1 && states == old(states) + [Contents()]
      ensures files == old(files)
      ensures ok <==> environment(old(steps)).Fine?
      ensures manifest == if environment(old(steps)).Refused? then old(manifest) else m
    {
      var outcome := NextOutcome();
      ok := outcome.Fine?;
      if !outcome.Refused? {
        manifest := m;
      }
      states := states + [Contents()];
    }

    method Unlink(name: Name) returns (ok: bool)
      modifies this
      ensures steps == old(steps) + 1 && states == old(states) + [Contents()]
      ensures manifest == old(manifest)
      ensures ok <==> environment(old(steps)).Fine? && name in old(files)
      ensures files == Kept(old(files), name, environment(old(steps)))
    {
      var outcome := NextOutcome();
      ok := outcome.Fine? && name in files;
      if outcome.Fine? {
        files := files - {name};
      }
      states := states + [Contents()];
    }

    method Sync() returns (ok: bool)
      modifies this
      ensures steps == old(steps) + 1 && states == old(states) + [Contents()]
      ensures Contents() == old(Contents())
      ensures ok <==> environment(old(steps)).Fine?
    {
      var outcome := NextOutcome();
      ok := outcome.Fine?;
      states := states + [Contents()];
    }

    method ReadFile(name: Name) returns (value: Option<Blob>)
      modifies this
      ensures steps == old(steps) + 1 && states == old(states) + [Contents()]
      ensures Contents() == old(Contents())
      ensures value == if environment(old(steps)).Fine? && name in files then Some(files[name]) else None
    {
      var outcome := NextOutcome();
      value := if outcome.Fine? && name in files then Some(files[name]) else None;
      states := states + [Contents()];
    }

    /** Best-effort removal: a file that cannot be unlinked is passed over. */
    method UnlinkAll(created: seq<Name>)
      modifies this
      ensures steps == old(steps) + |created| && old(states) <= states
      ensures manifest == old(manifest) && files == Left(old(files), created, environment, old(steps))
      ensures forall k :: |old(states)| <= k < |states| ==>
                Unlinking(old(Contents()), created, NoneCompletes(environment, old(steps), |created|), states[k])
      ensures Unlinking(old(Contents()), created, NoneCompletes(environment, old(steps), |created|), Contents())
    {
      var i := 0;
      while i < |created|
        invariant 0 <= i <= |created| && steps == old(steps) + i && old(states) <= states
        invariant manifest == old(manifest) && files == Left(old(files), created[..i], environment, old(steps))
        invariant Unlinking(old(Contents()), created, NoneCompletes(environment, old(steps), |created|), Contents())
        invariant forall k :: |old(states)| <= k < |states| ==>
                    Unlinking(old(Contents()), created, NoneCompletes(environment, old(steps), |created|), states[k])
      {
        var _ := Unlink(created[i]);
        assert created[..i + 1][..i] == created[..i];
        i := i + 1;
      }
      assert created[..i] == created;
    }

    // ---- Verification ----

    /** One purpose of the verification loop; `observed` holds the key ids seen so far. */
    method VerifyRing(p: Purpose, r: Ring, observed: set<KeyId>)
      returns (ok: bool, ids: set<KeyId>, named: set<Name>)
      ensures ok <==> RingSound(p, r, files) && KeyIds(r.generations) !! observed
      ensures ok ==> ids == observed + KeyIds(r.generations) && named == FilesOf(r.generations)
    {
      var s, present := r.generations, files;
      var active, k := 0, 0;
      var generations: set<int> := {};
      ids, named := observed, {};
      while k < |s|
        invariant 0 <= k <= |s|
        invariant Scanned(p, r, k, present, generations, active)
        invariant ids == observed + KeyIds(s[..k]) && KeyIds(s[..k]) !! observed
        invariant named == FilesOf(s[..k])
      {
        var e := s[k];
        if e.generation in generations || e.keyId in ids || !EntrySound(p, r.activeGeneration, e, present) {
          ScanRefuses(p, r, k, present, generations, active, observed);
          ok := false;
          return;
        }
        ScanStep(p, r, k, present, generations, active, observed);
        generations, ids, named := generations + {e.generation}, ids + {e.keyId}, named + EntryFiles(e);
        if e.state.Active? {
          active := active + 1;
        }
        k := k + 1;
      }
      assert s[..k] == s;
      ok := active == 1;
      ScanDone(p, r, present, generations, active);
    }

    /** Every check of the source's verifier, against the manifest given and the files present. */
    method VerifyManifest(m: Manifest) returns (ok: bool)
      modifies this
      ensures steps == old(steps) + 1 && states == old(states) + [Contents()]
      ensures Contents() == old(Contents())
      ensures ok <==> environment(old(steps)).Fine? && Verified(m, files)
    {
      var outcome := NextOutcome();
      states := states + [Contents()];
      if !outcome.Fine? || Normalized(m).None? {
        ok := false;
        return;
      }
      var rings := Normalized(m).value;
      var first, ids, named := VerifyRing(ImtSyncCredential, rings.imtSync, {});
      if !first {
        ok := false;
        return;
      }
      var second, _, more := VerifyRing(PassServiceSession, rings.passService, ids);
      ok := second && files.Keys == named + more;
    }

    // ---- prepare_rotation ----

    method WriteKeyFiles(p: Purpose, next: int, key: KeyId, ghost d1: Directory)
      returns (ok: bool, created: seq<Name>)
      requires KeyFile(p, next, Private) !in files && KeyFile(p, next, Public) !in files
      modifies this
      ensures old(states) <= states && old(steps) <= steps
      ensures FilesStage(old(Contents()), NewFiles(old(files), p, next, key), KeyFile(p, next, Private),
                         KeyFile(p, next, Public), environment, old(steps), steps - old(steps), ok, created, Contents())
      ensures forall k :: |old(states)| <= k < |states| ==>
                PreparationPasses(old(Contents()), d1, false, states[k])
    {
      created := [];
      ok := WriteExclusive(KeyFile(p, next, Private), PrivateRaw(key));
      if !ok {
        return;
      }
      created := created + [KeyFile(p, next, Private)];
      ok := WriteExclusive(KeyFile(p, next, Public), PublicRaw(key));
      if !ok {
        return;
      }
      created := created + [KeyFile(p, next, Public)];
    }

    /** Writes the two key files, replaces the manifest and verifies the result. */
    method WriteGeneration(
      p: Purpose, next: int, key: KeyId, replacement: Manifest, ghost d1: Directory, ghost at: nat)
      returns (ok: bool, created: seq<Name>, replaced: bool)
      requires steps == at
      requires KeyFile(p, next, Private) !in files && KeyFile(p, next, Public) !in files
      requires d1 == Directory(replacement, NewFiles(files, p, next, key)) && Verified(d1.manifest, d1.files)
      modifies this
      ensures old(states) <= states && steps > old(steps)
      ensures WriteStage(old(Contents()), d1, KeyFile(p, next, Private), KeyFile(p, next, Public), environment,
                         at, steps - at, ok, created, replaced, Contents())
      ensures forall k :: |old(states)| <= k < |states| ==>
                PreparationPasses(old(Contents()), d1, false, states[k])
    {
      replaced := false;
      ok, created := WriteKeyFiles(p, next, key, d1);
      if !ok {
        return;
      }
      replaced, ok := InstallManifest(replacement, d1);
    }

    /** Replaces the manifest and verifies the result. */
    method InstallManifest(replacement: Manifest, ghost d1: Directory) returns (replaced: bool, ok: bool)
      requires d1 == Directory(replacement, files) && Verified(d1.manifest, d1.files)
      modifies this
      ensures replaced <==> environment(old(steps)).Fine?
      ensures ok <==> replaced && environment(old(steps) + 1).Fine?
      ensures old(states) <= states && steps == old(steps) + if replaced then 2 else 1
      ensures Contents() == if environment(old(steps)).Refused? then old(Contents()) else d1
      ensures forall k :: |old(states)| <= k < |states| ==> states[k] == old(Contents()) || states[k] == d1
    {
      ok := false;
      replaced := ReplaceManifest(replacement);
      if replaced {
        ok := VerifyManifest(manifest);
      }
    }

    /** The `except` block: put the manifest back, then drop the new files. A manifest that
        cannot be put back ends the rollback. */
    method RollBackPreparation(previous: Manifest, created: seq<Name>, replaced: bool)
      modifies this
      ensures old(states) <= states && old(steps) <= steps
      ensures Contents() == RolledBack(old(Contents()), previous, created, replaced, environment, old(steps))
      ensures forall k :: |old(states)| <= k < |states| ==>
                RollbackPasses(old(Contents()), previous, created, replaced,
                               !replaced && NoneCompletes(environment, old(steps), |created|), states[k])
    {
      var ok := true;
      if replaced {
        ok := ReplaceManifest(previous);
      }
      if !ok {
        return;
      }
      UnlinkAll(created);
      ok := Sync();
    }

    /** The rollback of a preparation whose checks refuse it: nothing was written yet. */
    method RollBackNothing()
      modifies this
      ensures old(states) <= states && old(steps) <= steps && Contents() == old(Contents())
      ensures forall k :: |old(states)| <= k < |states| ==> states[k] == Contents()
    {
      ghost var d0 := Contents();
      RollBackPreparation(manifest, [], false);
      forall k | |old(states)| <= k < |states| ensures states[k] == d0 {
        NothingLost(d0.files, states[k].files);
      }
    }

    /** The primitives of a preparation that passed its checks, with their rollback. */
    method RunPreparation(
      p: Purpose, next: int, key: KeyId, replacement: Manifest, ghost d1: Directory, ghost at: nat, ghost from: nat)
      returns (ok: bool)
      requires steps == at && |states| == from
      requires KeyFile(p, next, Private) !in files && KeyFile(p, next, Public) !in files
      requires d1 == Directory(replacement, NewFiles(files, p, next, key)) && Verified(d1.manifest, d1.files)
      modifies this
      ensures old(states) <= states && old(steps) <= steps
      ensures RunGuarantee(old(Contents()), d1, KeyFile(p, next, Private), KeyFile(p, next, Public), ok, environment,
                           at, states, from, Contents())
    {
      var previous := manifest;
      ghost var priv, pub := KeyFile(p, next, Private), KeyFile(p, next, Public);
      ghost var d0 := Contents();
      var created, replaced;
      ok, created, replaced := WriteGeneration(p, next, key, replacement, d1, at);
      ghost var reached, written, n := |states|, Contents(), steps - at;
      EndFits(d0, d1, priv, pub, environment, at, n, ok, created, replaced, written, steps);
      if !ok {
        ghost var undoing := steps;
        RollBackPreparation(previous, created, replaced);
        RollbackStates(d0, d1, priv, pub, environment, at, n, created, replaced, written, undoing, states, reached);
      }
    }

    /** The part of a preparation after its checks, with its rollback. */
    method InstallGeneration(p: Purpose, next: int, key: KeyId, now: Time, ghost at: nat, ghost from: nat)
      returns (ok: bool)
      requires Preparable(Contents(), p, next, key)
      requires steps == at + 1 && |states| == from && environment(at).Fine?
      modifies this
      ensures old(states) <= states && old(steps) <= steps
      ensures ok <==> Completes(environment, at, 5)
      ensures PreparationGuarantee(old(Contents()), PreparedDirectory(old(Contents()), p, next, key, now),
                                   environment, at, states, from, Contents())
    {
      ghost var d1 := PreparedDirectory(Contents(), p, next, key, now);
      var entry := GenerationEntry(p, next, key, Retired, now);
      NewGenerationFacts(Contents(), d1, p, entry);
      ok := InstallEntry(p, entry, PreparedManifest(Normalized(manifest).value, p, entry), d1, at, from);
    }

    method InstallEntry(
      p: Purpose, entry: Entry, replacement: Manifest, ghost d1: Directory, ghost at: nat, ghost from: nat)
      returns (ok: bool)
      requires NewGeneration(Contents(), d1, p, entry) && d1.manifest == replacement
      requires Verified(manifest, files) && Verified(d1.manifest, d1.files)
      requires steps == at + 1 && |states| == from && environment(at).Fine?
      modifies this
      ensures old(states) <= states && old(steps) <= steps
      ensures ok <==> Completes(environment, at, 5)
      ensures PreparationGuarantee(old(Contents()), d1, environment, at, states, from, Contents())
    {
      ghost var d0 := Contents();
      ok := RunPreparation(p, entry.generation, entry.keyId, replacement, d1, at + 1, from);
      PreparationOutcome(d0, d1, p, entry, ok, environment, at, states, from, Contents());
    }

    /** Creates a key pair as a retired generation. `key` is the pair the generator drew. */
    method PrepareRotation(purpose: Option<Purpose>, requested: Option<int>, key: KeyId, now: Time)
      returns (r: Result<int, KeysetError>)
      modifies this
      ensures old(states) <= states && old(steps) <= steps
      ensures PrepareGuarantee(old(Contents()), purpose, requested, key, now, r, environment, old(steps),
                               states, |old(states)|, Contents())
    {
      if purpose.None? {
        return Err(PurposeInvalid);
      }
      r := CheckPreparation(purpose.value, requested, key);
      if r.Err? {
        RefuseRotation(purpose.value, requested, key, now, r, old(steps), |old(states)|);
      } else {
        r := CompleteRotation(purpose.value, requested, key, now, r.value, old(steps), |old(states)|);
      }
    }

    /** A preparation refused by its checks. */
    method RefuseRotation(
      p: Purpose, requested: Option<int>, key: KeyId, now: Time, r: Result<int, KeysetError>, ghost at: nat, ghost from: nat)
      requires steps == at + 1 && |states| == from + 1 && states[from] == Contents()
      requires r.Err?
      requires r == PrepareCheck(if environment(at).Fine? then Contents() else UNREADABLE, Some(p), requested, key)
      modifies this
      ensures old(states) <= states && old(steps) <= steps
      ensures PrepareGuarantee(old(Contents()), Some(p), requested, key, now, r, environment, at, states, from, Contents())
    {
      ghost var d0 := Contents();
      RollBackNothing();
      CheckRefused(d0, Some(p), requested, key, now, r, environment, at, states, from);
    }

    /** A preparation whose checks passed. */
    method CompleteRotation(
      p: Purpose, requested: Option<int>, key: KeyId, now: Time, next: int, ghost at: nat, ghost from: nat)
      returns (r: Result<int, KeysetError>)
      requires PrepareCheck(Contents(), Some(p), requested, key) == Ok(next) && Preparable(Contents(), p, next, key)
      requires steps == at + 1 && |states| == from + 1 && states[from] == Contents() && environment(at).Fine?
      modifies this
      ensures old(states) <= states && old(steps) <= steps
      ensures PrepareGuarantee(old(Contents()), Some(p), requested, key, now, r, environment, at, states, from, Contents())
    {
      ghost var d0 := Contents();
      var ok := InstallGeneration(p, next, key, now, at, from + 1);
      CheckPassed(d0, p, requested, key, now, next, ok, environment, at, states, from, Contents());
      r := if ok then Ok(next) else Err(PrimitiveFailed);
    }

    /** The checks of a preparation, the first of them the verification of the directory. */
    method CheckPreparation(p: Purpose, requested: Option<int>, key: KeyId) returns (r: Result<int, KeysetError>)
      modifies this
      ensures steps == old(steps) + 1 && states == old(states) + [Contents()]
      ensures Contents() == old(Contents())
      ensures environment(old(steps)).Fine? ==> r == PrepareCheck(Contents(), Some(p), requested, key)
      ensures !environment(old(steps)).Fine? ==> r == Err(VerifyFailed)
      ensures r.Ok? ==> Preparable(Contents(), p, r.value, key)
    {
      var ok := VerifyManifest(manifest);
      if !ok {
        return Err(VerifyFailed);
      }
      var rings := Normalized(manifest).value;
      var generations := rings.At(p).generations;
      ActiveExists(rings, files, p);
      var next := NextGeneration(generations, requested);
      if next < 1 || HasGeneration(generations, next) {
        return Err(GenerationExists);
      }
      if KeyUsed(rings, key) {
        return Err(KeysNotDistinct);
      }
      r := Ok(next);
    }

    // ---- activate_generation ----

    /** Marks the generation active and every other active one retired, entry by entry. */
    method ActivateEntries(generations: seq<Entry>, generation: int, now: Time) returns (s: seq<Entry>)
      ensures s == ActivatedRing(Ring(0, generations), generation, now).generations
    {
      s := generations;
      var i := 0;
      while i < |s|
        invariant 0 <= i <= |s| == |generations|
        invariant forall k :: 0 <= k < i ==> s[k] == ActivatedEntry(generations[k], generation, now)
        invariant forall k :: i <= k < |s| ==> s[k] == generations[k]
      {
        if s[i].state.Active? {
          s := s[i := s[i].(state := Retired, retiredAt := Some(now))];
        }
        if s[i].generation == generation {
          s := s[i := s[i].(state := Active, retiredAt := None)];
        }
        i := i + 1;
      }
    }

    /** Replaces the manifest and verifies; on failure puts the previous one back. */
    method SwapManifest(replacement: Manifest, ghost d1: Directory, ghost at: nat, ghost from: nat) returns (ok: bool)
      requires d1 == Directory(replacement, files) && Verified(d1.manifest, d1.files)
      requires steps == at && |states| == from
      modifies this
      ensures old(states) <= states && old(steps) <= steps
      ensures SwapGuarantee(old(Contents()), d1, ok, environment, at, states, from, Contents())
    {
      var previous := manifest;
      var replaced;
      replaced, ok := InstallManifest(replacement, d1);
      if !ok {
        var _ := ReplaceManifest(previous);
      }
    }

    method CheckActivation(purpose: Option<Purpose>, generation: int, confirmed: bool) returns (r: Result<(), KeysetError>)
      modifies this
      ensures old(states) <= states && old(steps) <= steps && Contents() == old(Contents())
      ensures forall k :: |old(states)| <= k < |states| ==> states[k] == Contents()
      ensures r == ActivateCheck(if environment(old(steps)).Fine? then Contents() else UNREADABLE,
                                 purpose, generation, confirmed)
      ensures r.Ok? ==> steps == old(steps) + 1 && |states| == |old(states)| + 1
    {
      if !confirmed {
        return Err(ConfirmationRequired);
      }
      if purpose.None? || generation < 1 {
        return Err(GenerationInvalid);
      }
      var ok := VerifyManifest(manifest);
      if !ok {
        return Err(VerifyFailed);
      }
      var target := Find(Normalized(manifest).value.At(purpose.value).generations, generation);
      if target.None? || target.value.privateFile.None? {
        return Err(GenerationInvalid);
      }
      r := Ok(());
    }

    method ActivateGeneration(purpose: Option<Purpose>, generation: int, confirmed: bool, now: Time)
      returns (r: Result<(), KeysetError>)
      modifies this
      ensures old(states) <= states && old(steps) <= steps
      ensures ActivateGuarantee(old(Contents()), purpose, generation, confirmed, now, r, environment, old(steps),
                                states, |old(states)|, Contents())
    {
      ghost var at, from := steps, |states|;
      r := CheckActivation(purpose, generation, confirmed);
      if r.Ok? {
        r := CompleteActivation(purpose.value, generation, confirmed, now, at, from);
      }
    }

    /** An activation whose checks passed. */
    method CompleteActivation(
      p: Purpose, generation: int, ghost confirmed: bool, now: Time, ghost at: nat, ghost from: nat)
      returns (r: Result<(), KeysetError>)
      requires ActivateCheck(Contents(), Some(p), generation, confirmed).Ok?
      requires steps == at + 1 && |states| == from + 1 && states[from] == Contents() && environment(at).Fine?
      modifies this
      ensures old(states) <= states && old(steps) <= steps
      ensures ActivateGuarantee(old(Contents()), Some(p), generation, confirmed, now, r, environment, at,
                                states, from, Contents())
    {
      ghost var d0 := Contents();
      var ok := RunActivation(p, generation, confirmed, now, at + 1, from + 1);
      ActivationEnds(d0, Some(p), generation, confirmed, now, ok, environment, at, states, from, Contents());
      r := if ok then Ok(()) else Err(PrimitiveFailed);
    }

    /** The part of an activation after its checks. */
    method RunActivation(
      p: Purpose, generation: int, ghost confirmed: bool, now: Time, ghost at: nat, ghost from: nat)
      returns (ok: bool)
      requires ActivateCheck(Contents(), Some(p), generation, confirmed).Ok?
      requires steps == at && |states| == from
      modifies this
      ensures old(states) <= states && old(steps) <= steps
      ensures SwapGuarantee(old(Contents()), ActivatedDirectory(old(Contents()), p, generation, now), ok,
                            environment, at, states, from, Contents())
    {
      var rings := Normalized(manifest).value;
      var generations := ActivateEntries(rings.At(p).generations, generation, now);
      ActivatedVerified(Contents(), p, generation, confirmed, now);
      assert Ring(generation, generations) == ActivatedRing(rings.At(p), generation, now);
      ok := SwapManifest(Current(SUITE_ID, rings.With(p, Ring(generation, generations))),
                         ActivatedDirectory(Contents(), p, generation, now), at, from);
    }

    // ---- retire_generation ----

    /** Backs the private key up, installs the manifest without it, and only then unlinks it. */
    method RemovePrivate(name: Name, replacement: Manifest, ghost d1: Directory)
      returns (ok: bool, backup: Option<Blob>, deleted: bool)
      requires name in files && d1 == Directory(replacement, files - {name})
      modifies this
      ensures old(states) <= states && steps > old(steps)
      ensures RemovalStage(old(Contents()), d1, environment, old(steps), steps - old(steps), ok, deleted, Contents())
      ensures deleted ==> backup == Some(old(files)[name])
      ensures forall k :: |old(states)| <= k < |states| ==>
                states[k] == old(Contents()) || RetireReaches(d1, states[k])
    {
      ok, deleted := false, false;
      backup := ReadFile(name);
      if backup.None? {
        return;
      }
      ok := ReplaceManifest(replacement);
      if !ok {
        return;
      }
      ok := Unlink(name);
      if !ok {
        return;
      }
      deleted := true;
      ok := Sync();
    }

    /** The retirement of a generation whose private key is to be deleted, with its rollback. */
    method RunRemoval(name: Name, replacement: Manifest, ghost d1: Directory) returns (ok: bool)
      requires name in files && d1 == Directory(replacement, files - {name}) && Verified(d1.manifest, d1.files)
      modifies this
      ensures old(states) <= states && old(steps) <= steps
      ensures ok <==> Completes(environment, old(steps), 5)
      ensures Contents() == RemovalEnd(old(Contents()), d1, name, environment, old(steps))
      ensures forall k :: |old(states)| <= k < |states| ==>
                states[k] == old(Contents()) || RetireReaches(d1, states[k])
    {
      var previous := manifest;
      ghost var d0, at := Contents(), steps;
      var removed, backup, deleted := RemovePrivate(name, replacement, d1);
      ok := FinishRemoval(name, replacement, removed, backup, deleted, previous, d0, d1, at);
    }

    /** Verifies a removal that went through, and undoes one that did not or does not verify. */
    method FinishRemoval(
      name: Name, replacement: Manifest, removed: bool, backup: Option<Blob>, deleted: bool, previous: Manifest,
      ghost d0: Directory, ghost d1: Directory, ghost at: nat) returns (ok: bool)
      requires name in d0.files && d1 == Directory(replacement, d0.files - {name}) && Verified(d1.manifest, d1.files)
      requires previous == d0.manifest && steps >= at && (deleted ==> backup == Some(d0.files[name]))
      requires RemovalStage(d0, d1, environment, at, steps - at, removed, deleted, Contents())
      modifies this
      ensures old(states) <= states && old(steps) <= steps
      ensures ok <==> Completes(environment, at, 5)
      ensures Contents() == RemovalEnd(d0, d1, name, environment, at)
      ensures forall k :: |old(states)| <= k < |states| ==> states[k] == d0 || RetireReaches(d1, states[k])
    {
      ghost var middle, n := Contents(), steps - at;
      ok := removed;
      if ok {
        ok := VerifyManifest(replacement);
      }
      RemovalFits(d0, d1, name, environment, at, n, removed, deleted, backup, middle, ok, steps);
      if !ok {
        ghost var reached := |states|;
        UndoRemoval(name, backup, deleted, previous);
        UndoStates(d0, d1, name, environment, at, n, removed, deleted, backup, middle, states, reached);
      }
    }

    /** Puts the private key back if it was deleted, then the manifest. */
    method UndoRemoval(name: Name, backup: Option<Blob>, deleted: bool, previous: Manifest)
      requires deleted ==> backup.Some? && name !in files
      modifies this
      ensures old(states) <= states && old(steps) <= steps
      ensures Contents() == Undone(old(Contents()), name, backup, deleted, previous, environment, old(steps))
      ensures forall k :: |old(states)| <= k < |states| ==>
                UndoPasses(old(Contents()), name, backup, deleted, previous, states[k])
    {
      var ok := true;
      if deleted {
        ok := WriteExclusive(name, backup.value);
      }
      if !ok {
        return;
      }
      ok := ReplaceManifest(previous);
    }

    /** A retirement with nothing to delete only verifies, and rewrites the manifest on failure. */
    method RunCheckOnly(m: Manifest) returns (ok: bool)
      requires Verified(m, files)
      modifies this
      ensures old(states) <= states && old(steps) <= steps && Contents() == old(Contents())
      ensures ok <==> environment(old(steps)).Fine?
      ensures forall k :: |old(states)| <= k < |states| ==> states[k] == Contents()
    {
      ok := VerifyManifest(m);
      if !ok {
        var _ := ReplaceManifest(manifest);
      }
    }

    method CheckRetirement(purpose: Option<Purpose>, generation: int, referenced: int, confirmed: bool)
      returns (r: Result<(), KeysetError>)
      modifies this
      ensures old(states) <= states && old(steps) <= steps && Contents() == old(Contents())
      ensures forall k :: |old(states)| <= k < |states| ==> states[k] == Contents()
      ensures r == RetireCheck(if environment(old(steps)).Fine? then Contents() else UNREADABLE,
                               purpose, generation, referenced, confirmed)
      ensures r.Ok? ==> steps == old(steps) + 1 && |states| == |old(states)| + 1
    {
      if !confirmed {
        return Err(ConfirmationRequired);
      }
      if purpose.None? || generation < 1 || referenced < 0 {
        return Err(GenerationInvalid);
      }
      if referenced != 0 {
        return Err(GenerationStillReferenced);
      }
      var ok := VerifyManifest(manifest);
      if !ok {
        return Err(VerifyFailed);
      }
      var r0 := Normalized(manifest).value.At(purpose.value);
      var e := Find(r0.generations, generation);
      if e.None? || !e.value.state.Retired? || e.value.generation == r0.activeGeneration {
        return Err(GenerationNotRetired);
      }
      r := Ok(());
    }

    /** A retirement that passed its checks. */
    method RunRetirement(p: Purpose, generation: int, deletePrivate: bool) returns (ok: bool)
      requires RetireCheck(Contents(), Some(p), generation, 0, true).Ok?
      requires steps > 0 && environment(steps - 1).Fine?
      modifies this
      ensures old(states) <= states && old(steps) <= steps
      ensures RemovalGuarantee(old(Contents()), RetiredDirectory(old(Contents()), p, generation, deletePrivate),
                               HasKeyToDelete(old(Contents()), p, generation, deletePrivate), ok, environment,
                               old(steps) - 1, states, |old(states)|, Contents())
    {
      ghost var d0, at := Contents(), steps - 1;
      ghost var d1 := RetiredDirectory(d0, p, generation, deletePrivate);
      RetiredVerified(d0, p, generation, 0, true, deletePrivate);
      var rings := Normalized(manifest).value;
      var e := Find(rings.At(p).generations, generation).value;
      if deletePrivate && e.privateFile.Some? {
        RetiredLacksKey(d0, p, generation);
        RemovalMeans(d0, d1, e.privateFile.value, environment, at);
        OneThenRest(environment, at, 5);
        ok := RunRemoval(e.privateFile.value, Current(SUITE_ID, rings.With(p, RetiredRing(rings.At(p), generation))), d1);
      } else {
        OneThenRest(environment, at, 1);
        ok := RunCheckOnly(Current(SUITE_ID, rings));
      }
    }

    method RetireGeneration(
      purpose: Option<Purpose>, generation: int, referenced: int, deletePrivate: bool, confirmed: bool)
      returns (r: Result<(), KeysetError>)
      modifies this
      ensures old(states) <= states && old(steps) <= steps
      ensures RetireGuarantee(old(Contents()), purpose, generation, referenced, deletePrivate, confirmed, r,
                              environment, old(steps), states, |old(states)|, Contents())
    {
      ghost var d0, at := Contents(), steps;
      r := CheckRetirement(purpose, generation, referenced, confirmed);
      if r.Err? {
        RetirementRefused(d0, purpose, generation, referenced, deletePrivate, confirmed, r, environment, at,
                          states, |old(states)|);
        return;
      }
      ghost var middle := states;
      assert purpose == Some(purpose.value) && referenced == 0 && confirmed;
      var ok := RunRetirement(purpose.value, generation, deletePrivate);
      assert states[|old(states)|] == middle[|old(states)|] == d0;
      RetirementEnds(d0, purpose, generation, referenced, deletePrivate, confirmed, ok, environment, at,
                     states, |old(states)|, Contents());
      r := if ok then Ok(()) else Err(PrimitiveFailed);
    }
  }

  // ---- provision ----

  /** Builds a new keyset in a directory of its own, which the final rename, the seventh primitive,
      turns into the target. `keys` are the pairs drawn for the two purposes. `target` is what stands
      at the target's place afterwards if nothing stood there before: nothing or the whole keyset,
      and the latter after a failure exactly when only the sync that follows the rename failed. */
  method Provision(targetExists: bool, keys: seq<KeyId>, now: Time, environment: Environment)
    returns (r: Result<(), KeysetError>, target: Option<KeysetDirectory>)
    requires |keys| == |PURPOSES|
    ensures r == if targetExists then Err(TargetExists)
                 else if keys[0] == keys[1] && Completes(environment, 0, 2) then Err(KeysNotDistinct)
                 else if Completes(environment, 0, 7) then Ok(()) else Err(PrimitiveFailed)
    ensures target.Some? <==>
              !targetExists && keys[0] != keys[1] && Completes(environment, 0, 6) && !environment(6).Refused?
    ensures target.Some? ==> fresh(target.value) && target.value.Contents() == InitialDirectory(keys, now)
  {
    target := None;
    if targetExists {
      return Err(TargetExists), None;
    }
    var d := new KeysetDirectory(Malformed, map[], environment);
    var written := WriteInitialKeys(d, keys);
    if written.Err? {
      return written, None;
    }
    var entries := InitialEntries(keys, now);
    var installed := d.ReplaceManifest(Current(SUITE_ID, InitialRings(entries[0], entries[1])));
    if !installed {
      return Err(PrimitiveFailed), None;
    }
    var synced := d.Sync();
    if !synced {
      return Err(PrimitiveFailed), None;
    }
    var renamed := d.NextOutcome();
    target := if renamed.Refused? then None else Some(d);
    r := if renamed.Fine? then Ok(()) else Err(PrimitiveFailed);
  }

  /** The two key pairs of a new keyset, each as two files, the second pair only if it differs. */
  method WriteInitialKeys(d: KeysetDirectory, keys: seq<KeyId>) returns (r: Result<(), KeysetError>)
    requires |keys| == |PURPOSES| && d.files == map[] && d.steps == 0
    modifies d
    ensures r == if keys[0] == keys[1] && Completes(d.environment, 0, 2) then Err(KeysNotDistinct)
                 else if Completes(d.environment, 0, 4) then Ok(()) else Err(PrimitiveFailed)
    ensures r.Ok? ==> d.files == InitialFiles(keys, |PURPOSES|) && d.steps == 4
  {
    var observed: set<KeyId> := {};
    var i := 0;
    while i < |PURPOSES|
      invariant 0 <= i <= |PURPOSES|
      invariant observed == set j | 0 <= j < i :: keys[j]
      invariant d.files == InitialFiles(keys, i)
      invariant d.steps == 2 * i && Completes(d.environment, 0, 2 * i)
      invariant i == 2 ==> keys[0] != keys[1]
    {
      if keys[i] in observed {
        return Err(KeysNotDistinct);
      }
      var first := d.WriteExclusive(KeyFile(PURPOSES[i], 1, Private), PrivateRaw(keys[i]));
      if !first {
        return Err(PrimitiveFailed);
      }
      var second := d.WriteExclusive(KeyFile(PURPOSES[i], 1, Public), PublicRaw(keys[i]));
      if !second {
        return Err(PrimitiveFailed);
      }
      observed := observed + {keys[i]};
      i := i + 1;
    }
    r := Ok(());
  }
}
