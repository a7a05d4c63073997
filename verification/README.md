# BotNote verification model

Dafny models of the parts of BotNote whose correctness spans several functions, with proofs about
every input, every run or every reachable state. `dafny verify dfyconfig.toml` checks everything.

| module | what it models |
|---|---|
| `KeysetNames`, `Keyset`, `KeysetDirectories`, `KeysetRuns`, `KeysetLaws` | the HPKE keyset directory: key file names, the manifest check, the four operations with their ordered primitives and hand-written rollback, runs of operations beside a store of sealed envelopes |
| `BundleModel`, `CatalogGraph`, `LearningBundle`, `BundleAcceptance` | the learning bundle: parent cycle check, ancestor walk, graph validation, audience-scoped lookups |
| `SearchScore`, `CodePointOrder`, `SearchRanking`, `BundleCache`, `MathBraces` | scoring and bounded ranking of search, the process cache, brace nesting in math sources |
| `RateLimiter`, `SessionPruning`, `AccessFencing` | the login rate limiter; session limits; sessions, share tokens and passkeys fenced by an access generation |
| `Utf8`, `HpkeContext`, `SecretFrames`, `HpkeEnvelopes` | UTF-8 (section 3 of RFC 3629), info strings, padded secret frames, envelopes and keyrings |
| `OperationalSequence`, `SequenceReconciliation`, `EventLog`, `EventStreams` | repair of a database sequence, the operator command around it, the bounded event log and its resumable stream |

How state and failure are modelled:

- A keyset directory is a class holding the current manifest and a map from names to contents. What
  happens at each primitive is an arbitrary function of its number, the environment: it succeeds, is
  refused with nothing changed, or fails half-way: replacing the manifest and the final rename of
  `provision` can take effect and then raise because the directory sync after them fails, and a key
  file can be cut short. Every contract is stated on the environment. A ghost field records every
  directory passed through, which is what the "at every step" claims are about.
- Tables are maps, and a transaction or a login's two halves are atomic steps. Clocks, random keys,
  paddings, iteration orders and everything a server answers are parameters, so each claim holds for
  all of them.
- HPKE is any pair of functions with open-after-seal (section 6.1 of RFC 9180), 48 bytes of overhead
  and collision-free key digests; where authentication is used it is an explicit hypothesis, shown
  satisfiable.

## What the code does not do as promised

Each is stated for all inputs, with the exact condition.

- A failed `prepare_rotation` is meant to leave the directory as it was. It does so exactly under
  `KeysetDirectories.PreparationRestores`, proved for every environment by
  `KeysetDirectories.KeysetDirectory.PrepareRotation`. With a rollback that succeeds there are two
  ways for it not to. (1) The rename of the new manifest takes effect and the sync after it fails: the
  rollback believes the manifest was not replaced and unlinks the two key files that the installed
  manifest names (deploy/security/sync_hpke_keysets.py:99-110, 552-561). The named files are then
  missing, and only then (`LosesNewFile`). `KeysetRuns.LateReplacementDamages` is that run. (2) A key
  file is created and its writing fails: its name never reaches the list the rollback works from
  (lines 543-549), the file stays, the directory no longer verifies, and every later operation is
  refused. `KeysetRuns.CutShortWriteBlocks` is that run.
- `activate_generation` and `retire_generation` restore the directory after any one failure, half-way
  or not, if their rollback succeeds (`KeysetDirectories.OneFailureRestores`). With the rollback's own
  failures counted they do so exactly under `ActivationRestores` and `RetirementRestores`: a refused
  second replacement leaves an activation in place, and leaves a retirement with the retired manifest
  over a key file it no longer names, which does not verify.
- `provision` can fail with the new keyset in place: exactly when only the sync after its final
  rename fails (`KeysetDirectories.Provision`; `KeysetRuns.ProvisionedAllTheSame` is the run).
- An info string is at most 292 bytes only for sync credentials; for service sessions the maximum is
  309 (`HpkeContext.ShortInfoIff`, `HpkeContext.LongestInfo`). The 1024-byte check never fires either
  way.
- A blocked receipt of the sequence operator can say mutation "none" and count no `setval` although
  one was executed: exactly when the write was confirmed, a read after it failed and the rollback went
  through (`SequenceReconciliation.MutationStateMeans`, `ExecuteOperator`; `ReceiptDeniesWrite` is such a run).
- Deleting a passkey moves every remaining session, share token and passkey of the account to the new
  generation, including those an earlier generation had fenced off. `AccessFencing.DeletionDecides`,
  `DeletionDecidesPasskeys` and `DeletionDecidesTokens` say exactly which are accepted or usable
  afterwards, whatever their generation was. `AccessFencing.StaleSessionRevived` is a run that revives
  one: a token login reads the generation before a deletion commits and inserts its session after it
  (backend/app/routers/auth.py:360-373); the session is refused until the next deletion lets it in.
- `get_auth_context` looks at the share token of any session that has one, `session_is_active` only of
  token sessions. They differ exactly on `AccessFencing.StrayToken` sessions, which no reachable state
  contains.

## Model

| member | source | states |
|---|---|---|
| KeysetNames.FileTextInjective | deploy/security/sync_hpke_keysets.py:132-133 | two key file names are equal only for equal purpose, generation and kind |
| KeysetNames.FileTextIsNotManifest | deploy/security/sync_hpke_keysets.py:132-133 | no key file name is that of the manifest, so writing keys never touches it |
| KeysetNames.PurposeOf | deploy/security/sync_hpke_keysets.py:502-503 | the accepted purpose labels are exactly those of the two purposes |
| KeysetDirectories.KeysetDirectory.VerifyRing | deploy/security/sync_hpke_keysets.py:401-471 | the verifier's scan of one purpose, with its growing sets, accepts exactly the sound rings whose key ids were not seen before |
| KeysetDirectories.KeysetDirectory.VerifyManifest | deploy/security/sync_hpke_keysets.py:374-475 | the whole verifier accepts exactly the directories meeting the declarative invariant `Verified`: one active generation per purpose with its private key, key ids distinct across purposes, files exactly those named |
| KeysetDirectories.KeysetDirectory.WriteExclusive | deploy/security/sync_hpke_keysets.py:72-86 | adds one absent file, changes nothing, or fails leaving a file cut short under the name |
| KeysetDirectories.KeysetDirectory.ReplaceManifest | deploy/security/sync_hpke_keysets.py:89-110 | installs the manifest, changes nothing, or installs it and still fails |
| KeysetDirectories.KeysetDirectory.Unlink | deploy/security/sync_hpke_keysets.py:557-559 | removes the file or changes nothing |
| KeysetDirectories.KeysetDirectory.PrepareRotation | deploy/security/sync_hpke_keysets.py:495-567 | for every environment, the rollback's failures included: the result; that the directory is restored, that the new generation is in place, that it verifies, and that the named files are there afterwards, each if and only if a condition on the environment; at every step older files keep their bytes, and unless that condition (`LosesNewFile`) damages the directory the installed manifest's files are present at every step too |
| KeysetDirectories.PreparationMeans | deploy/security/sync_hpke_keysets.py:543-561 | the four conditions, from what the ordered primitives leave |
| KeysetDirectories.OneFailureRestores | deploy/security/sync_hpke_keysets.py:555-670 | one failure with a rollback that succeeds: which operations restore after which failures |
| KeysetDirectories.KeysetDirectory.CheckPreparation | deploy/security/sync_hpke_keysets.py:513-535 | checks in order; passing means the generation number and the key are unused |
| KeysetDirectories.KeysetDirectory.WriteGeneration | deploy/security/sync_hpke_keysets.py:543-554 | files before manifest: at every step the old manifest is installed, or the new one over both new files |
| KeysetDirectories.KeysetDirectory.RollBackPreparation | deploy/security/sync_hpke_keysets.py:555-562 | manifest before unlink, and nothing is unlinked if the manifest cannot be put back |
| KeysetDirectories.KeysetDirectory.ActivateGeneration | deploy/security/sync_hpke_keysets.py:570-612 | for every environment: the result, which of two directories is left, the one before or the activated one, and that every state passed through is one of them; what is active afterwards is in `KeysetLaws.ActivationDid` |
| KeysetDirectories.KeysetDirectory.ActivateEntries | deploy/security/sync_hpke_keysets.py:597-603 | the loop over entries retires the active one and activates the target, nothing else |
| KeysetDirectories.KeysetDirectory.RetireGeneration | deploy/security/sync_hpke_keysets.py:615-676 | for every environment: the result; restored, key deleted and verified each if and only if a condition on the environment; every state is the directory before, or the retired manifest over at least the files it names |
| KeysetDirectories.RemovalMeans | deploy/security/sync_hpke_keysets.py:650-671 | those conditions, from what the ordered primitives leave |
| KeysetDirectories.KeysetDirectory.RemovePrivate | deploy/security/sync_hpke_keysets.py:650-664 | backs the key up, replaces the manifest, and only then unlinks |
| KeysetDirectories.KeysetDirectory.UndoRemoval | deploy/security/sync_hpke_keysets.py:666-670 | puts the deleted key back before the manifest that names it |
| KeysetDirectories.Provision | deploy/security/sync_hpke_keysets.py:153-232 | succeeds exactly when the checks pass and all seven primitives complete; the whole initial keyset is left exactly then or when only the last sync failed, and nothing otherwise |
| Keyset.LegacyToV2 | deploy/security/sync_hpke_keysets.py:319-357 | the loop filling a dictionary computes the upgrade |
| Keyset.LegacyMeans | deploy/security/sync_hpke_keysets.py:319-357 | a legacy manifest upgrades exactly under the known suite with first-generation file names throughout and both purposes listed, to one active first generation per purpose, the last one listed |
| Keyset.SortKeepsFiles | deploy/security/sync_hpke_keysets.py:550-551 | sorting entries by generation loses and invents no file or key |
| Keyset.SortOrdered | deploy/security/sync_hpke_keysets.py:551 | entries come out ordered by generation |
| Keyset.NextGenerationIsFree | deploy/security/sync_hpke_keysets.py:524-528 | without a requested number the next generation is above all others, so never taken |
| Keyset.PreparedVerified | deploy/security/sync_hpke_keysets.py:515-554 | adding a generation to a verified keyset gives a verified keyset |
| Keyset.ActivatedVerified | deploy/security/sync_hpke_keysets.py:584-607 | activating a generation that has its private key keeps the keyset verified |
| Keyset.RetiredVerified | deploy/security/sync_hpke_keysets.py:634-665 | deleting a retired private key keeps the keyset verified |
| Keyset.InitialVerified | deploy/security/sync_hpke_keysets.py:139-150 | what provisioning writes verifies |
| KeysetRuns.RunVerified | deploy/security/sync_hpke_keysets.py:374-475 | over every run of operations from a provisioned keyset, each completed or rolled back, the directory verifies between operations |
| KeysetRuns.PrepareIsStep | deploy/security/sync_hpke_keysets.py:495-567 | a call of the preparation method is a step of such a run exactly when it is refused, restores or installs, and an accepted one exactly when the directory verifies afterwards |
| KeysetRuns.ActivateIsStep | deploy/security/sync_hpke_keysets.py:570-612 | every call of the activation method is such a step, whatever fails |
| KeysetRuns.RetireIsStep | deploy/security/sync_hpke_keysets.py:615-676 | a call of the retirement method is such a step exactly when it is refused, has nothing to delete, restores or installs, and an accepted one exactly when the directory verifies afterwards |
| KeysetRuns.CallAll | deploy/security/sync_hpke_keysets.py:495-676 | any list of operations called on one directory in one environment: what each call leaves, by the conditions above |
| KeysetRuns.CallsVerified | deploy/security/sync_hpke_keysets.py:374-475 | as long as every accepted call restores or installs, the directory verifies after every call |
| KeysetRuns.SparseCallsVerified | deploy/security/sync_hpke_keysets.py:374-475 | from a verified directory, where no primitive fails half-way and of any four in a row at most one fails, so that every rollback succeeds, it verifies after every call, and a call that fails leaves it as it was |
| KeysetRuns.PreparePasses | deploy/security/sync_hpke_keysets.py:495-567 | whatever fails, a preparation leaves and passes only through directories of the interrupted runs below |
| KeysetRuns.ActivatePasses | deploy/security/sync_hpke_keysets.py:570-612 | likewise for activation |
| KeysetRuns.RetirePasses | deploy/security/sync_hpke_keysets.py:615-676 | likewise for retirement |
| KeysetRuns.ActivationAlwaysVerified | deploy/security/sync_hpke_keysets.py:604-609 | whatever fails, an activation passes only through directories that verify |
| KeysetRuns.RetirementAlwaysPresent | deploy/security/sync_hpke_keysets.py:652-671 | whatever fails, a retirement passes only through directories holding every file they name with its bytes |
| KeysetRuns.PreparationAlwaysPresent | deploy/security/sync_hpke_keysets.py:543-561 | an accepted preparation leaves and passes only through directories holding every file they name if and only if no new file is lost to a late replacement |
| KeysetRuns.LateReplacementDamages | deploy/security/sync_hpke_keysets.py:552-561 | on every directory that accepts it, a preparation run in which only the sync after the rename fails leaves a manifest naming missing files |
| KeysetRuns.CutShortWriteBlocks | deploy/security/sync_hpke_keysets.py:543-549 | on every directory that accepts it, a preparation run in which only the first file's writing fails half-way leaves a directory on which every operation is refused |
| KeysetRuns.FirstPreparationAccepted | deploy/security/sync_hpke_keysets.py:515-535 | a fresh keyset accepts a preparation with any unused key |
| KeysetRuns.ProvisionedAllTheSame | deploy/security/sync_hpke_keysets.py:218-227 | the run of a provisioning that reports failure with the keyset in place |
| KeysetRuns.GenerationNeverReused | deploy/security/sync_hpke_keysets.py:524-528 | over every run, interruptions and failed rollbacks included, a generation number keeps its key pair, and one whose private key was given up is never active again |
| KeysetRuns.RotationStrandsNothing | deploy/security/sync_hpke_keysets.py:594-671 | one rotation, completed, rolled back or stopped anywhere, strands no envelope |
| KeysetRuns.NoEnvelopeStranded | deploy/security/sync_hpke_keysets.py:495-676 | over every run mixing rotations, even interrupted ones, with sealing, re-sealing and deletion, every live envelope's generation keeps its private key if retirement is told true counts |
| KeysetLaws.VerifiedMeans | deploy/security/sync_hpke_keysets.py:374-475 | exactly what a directory needs to verify: each entry named by its generation, its files holding its key, one active entry with its private key, no generation twice in a purpose and no key twice at all, no file unnamed |
| KeysetLaws.PreparationAnswers | deploy/security/sync_hpke_keysets.py:502-554 | the answer to every call of a preparation, whatever fails, with the checks in order |
| KeysetLaws.ActivationAnswers | deploy/security/sync_hpke_keysets.py:578-609 | likewise for activation |
| KeysetLaws.RetirementAnswers | deploy/security/sync_hpke_keysets.py:624-676 | likewise for retirement |
| KeysetDirectories.SwapMeans | deploy/security/sync_hpke_keysets.py:604-609 | an activation is restored exactly when nothing was installed, or something failed and the replacement after it took effect |
| KeysetLaws.PreparationAccepted | deploy/security/sync_hpke_keysets.py:502-535 | exactly which preparations are accepted, and with which number: the requested one, or one more than the highest |
| KeysetLaws.PreparationDid | deploy/security/sync_hpke_keysets.py:536-554 | a preparation that succeeds added one retired generation with its key pair in two new files, and touched no other entry, active generation or file |
| KeysetLaws.ActivationAccepted | deploy/security/sync_hpke_keysets.py:580-596 | exactly which activations are accepted |
| KeysetLaws.ActivationDid | deploy/security/sync_hpke_keysets.py:597-607 | an activation that succeeds made the generation the active one, retired with its date the entry that was active, and touched no other entry, purpose or file |
| KeysetLaws.RetirementAccepted | deploy/security/sync_hpke_keysets.py:626-648 | exactly which retirements are accepted |
| KeysetLaws.RetirementDid | deploy/security/sync_hpke_keysets.py:649-665 | a retirement that succeeds removed the private key from entry and files if it was to be deleted, and touched nothing else |
| CatalogGraph.RejectParentCycles | backend/app/learning/schemas.py:937-952 | accepts exactly the graphs whose every parent chain reaches a root, and colours no node twice |
| CatalogGraph.ChainsAreShort | backend/app/learning/schemas.py:937-952 | in an accepted graph every parent chain is repeat-free and no longer than the catalog |
| CatalogGraph.PrepareCatalogAncestry | backend/app/learning/bundle.py:617-642 | terminates on every accepted catalog, fills an entry for every node equal to the recursive definition, and pushes each node onto a trail exactly once over the whole run |
| CatalogGraph.AncestryIsNearest | backend/app/learning/bundle.py:636-641 | an entry holds the nearest self-or-ancestor of kind ue, module and semester |
| CatalogGraph.WalkUp | backend/app/learning/bundle.py:626-641 | one trail adds exactly its own nodes, none known before |
| LearningBundle.RequireUniqueIds | backend/app/learning/schemas.py:929-935 | the loop over seen ids accepts exactly the lists without a repetition |
| LearningBundle.CheckUnique | backend/app/learning/schemas.py:731-738 | all uniqueness checks together |
| LearningBundle.ValidateGraph | backend/app/learning/schemas.py:729-927 | the checks in order accept exactly the manifests meeting every graph condition; the cycle check runs only when all parents resolve |
| LearningBundle.PathVisible | backend/app/learning/schemas.py:827-835 | along any chain of parents and prerequisites from a node an audience sees, everything is visible to it |
| LearningBundle.AncestorVisible | backend/app/learning/schemas.py:827-831 | every ancestor of a visible node is visible |
| LearningBundle.ContentClosed | backend/app/learning/schemas.py:852-865 | everything reachable from a visible content's node and prerequisites is visible |
| LearningBundle.ReferencesResolve | backend/app/learning/schemas.py:954-1000 | every concept, exercise, source and image reference of a visible content resolves through the lookups for that audience, and images open inline |
| LearningBundle.SourceOpens | backend/app/learning/bundle.py:188-205 | a visible source opens inline exactly when it has an asset, for download exactly when its rights also allow that, and the file is a checksummed one |
| LearningBundle.AssetOpensInline | backend/app/learning/bundle.py:188-205 | every visible asset opens inline |
| LearningBundle.ContentsMatchNodes | backend/app/learning/schemas.py:836-857 | contents and content-bearing nodes are in bijection |
| LearningBundle.AudienceDeclared | backend/app/learning/schemas.py:815-820 | only a declared audience sees anything |
| LearningBundle.OneMeaningPerId | backend/app/learning/schemas.py:807-809 | no id is that of two of a node, a content and a source, for any audiences |
| LearningBundle.SourceListed | backend/app/learning/schemas.py:902-906 | every visible source is the source of a visible source node |
| LearningBundle.AssetUsed | backend/app/learning/schemas.py:907-916 | every asset is that of a source or of an image block |
| LearningBundle.RightsUsed | backend/app/learning/schemas.py:917-920 | every rights entry is that of an asset or a source |
| LearningBundle.FilesExact | backend/app/learning/schemas.py:921-927 | the checksummed files are exactly the assets' and the search index, which is no asset's |
| LearningBundle.IndexExact | backend/app/learning/schemas.py:739-745 | with unique ids a dictionary by id finds exactly the listed items |
| BundleAcceptance.UniqueMeans | backend/app/learning/schemas.py:731-738 | which entries may not share an id, file, path or content link |
| BundleAcceptance.DisjointMeans | backend/app/learning/schemas.py:807-809 | no node, content and source share an id |
| BundleAcceptance.KnownMeans | backend/app/learning/schemas.py:818-820 | every entry is for declared audiences only |
| BundleAcceptance.NodeMeans | backend/app/learning/schemas.py:822-849 | an accepted node's content and source are visible to exactly its audiences, its parent and prerequisites to at least those |
| BundleAcceptance.ContentMeans | backend/app/learning/schemas.py:852-866 | an accepted content and its node are visible to exactly the same audiences, and everything it points to is visible to them |
| BundleAcceptance.ReferenceMeans | backend/app/learning/schemas.py:976-1000 | what each kind of reference needs of its target, as its audiences see it |
| BundleAcceptance.BlockMeans | backend/app/learning/schemas.py:961-974 | an image, and every reference in the lines of a block, of a list in those of every item |
| BundleAcceptance.AssetMeans | backend/app/learning/schemas.py:868-878 | an asset has a checksummed file and rights that allow serving and that its audiences, in schema 3 exactly they, see |
| BundleAcceptance.SourceMeans | backend/app/learning/schemas.py:880-905 | a source has an asset exactly when its rights allow serving, a PDF under the same rights for the same audiences |
| BundleAcceptance.CoverMeans | backend/app/learning/schemas.py:902-926 | the declared sources, assets, rights and checksums are exactly those used, and the search index is no asset |
| BundleAcceptance.DocumentMeans | backend/app/learning/bundle.py:564-583 | a search document has exactly the audiences of its node and content, and leads to the content, else the source, else the node |
| BundleAcceptance.NodeLookup | backend/app/learning/bundle.py:141-145 | the lookup gives a node exactly when it is listed under that id for that audience; `ContentLookup`, `AssetLookup`, `SourceLookup` and `RightsLookup` say the same |
| BundleAcceptance.AssetOpens | backend/app/learning/bundle.py:188-205 | an asset opens exactly for audiences of it and of its rights, as far as those allow |
| BundleAcceptance.SourceOpensAs | backend/app/learning/bundle.py:171-186 | a source opens exactly as its PDF asset that opens |
| SearchScore.CountSplits | backend/app/learning/bundle.py:595-600 | the non-overlapping count of a spaceless term in "title body" is its count in the title plus its count in the body |
| SearchScore.CountReached | backend/app/learning/bundle.py:645-653 | the count of a term is that of some choice of places without overlap |
| SearchScore.CountIsMost | backend/app/learning/bundle.py:645-653 | and no choice of places without overlap has more |
| SearchScore.ScoreMeaning | backend/app/learning/bundle.py:645-653 | a document matches exactly when every term occurs in its title or body; its score is the sum of 5 per title and 1 per body occurrence, at least the number of terms |
| SearchScore.QueryTermsSearchable | backend/app/learning/bundle.py:271-273 | the first 8 of the distinct words of 2 to 48 characters, none with a space |
| SearchScore.WordsMean | backend/app/learning/bundle.py:271-273 | splitting: a text without a space is one word, and a space splits the words of both sides, in order |
| SearchScore.EarlierWordsFirst | backend/app/learning/bundle.py:271-273 | terms come in the order their words first do |
| SearchRanking.Search | backend/app/learning/bundle.py:255-315 | limits and refusals in the source's order, otherwise the results of the best `limit` matches, which are those of `CandidatesAreWanted` |
| SearchRanking.CandidatesAreWanted | backend/app/learning/bundle.py:283-310 | the matches are exactly the documents of the audience that have every filter given and hold every term, under their own ids and data |
| SearchRanking.TopCandidates | backend/app/learning/bundle.py:280-313 | one pass keeping a bounded list computes the first `limit` of all matches sorted |
| SearchRanking.BestIsTop | backend/app/learning/bundle.py:312-313 | exactly min(limit, matches) matches, sorted by descending score then id, and every match left out comes after every one kept |
| SearchRanking.BestIgnoresOrder | backend/app/learning/bundle.py:255-315 | the order of the index does not matter |
| SearchRanking.SmallerLimitIsPrefix | backend/app/learning/bundle.py:312-313 | a smaller limit gives a prefix of a larger one |
| SearchRanking.PrepareSearchDocuments | backend/app/learning/bundle.py:586-614 | every accepted document is prepared once, with its node's kind and its nearest ue, module and semester |
| SearchRanking.SearchRevealsOnlyVisible | backend/app/learning/bundle.py:563-569 | every returned node and every ue, module and semester id it carries is visible to the asking audience |
| BundleCache.LearningBundleCache.GetLearningBundle | backend/app/learning/bundle.py:318-356 | answers and updates both slots as the pure step does, loading only for a key neither slot knows |
| BundleCache.LearningBundleCache.Reset | backend/app/learning/bundle.py:372-377 | empties both slots |
| BundleCache.CacheIsTransparent | backend/app/learning/bundle.py:325-356 | after any sequence of requests and resets a request gets what an uncached load would, and repeating it loads nothing |
| MathBraces.RecountAgreesWithFlag | backend/app/learning/schemas.py:144-150 | recounting backslashes backwards agrees at every index with a one-pass escape flag |
| MathBraces.ValidateMathSource | backend/app/learning/schemas.py:142-161 | the loop accepts exactly the texts whose unescaped braces are a balanced word of nesting depth at most 64 |
| MathBraces.BoundedIffBalanced | backend/app/learning/schemas.py:151-160 | counting within bounds and ending at zero is the same as being the rendering of a forest of that height |
| RateLimiter.LoginRateLimiter.Check | backend/app/security.py:433-457 | accepted exactly when fewer than `limit` accepted consuming checks lie in the window of a plain history; Retry-After as the oldest of them says; eviction only for a new key, only when full, and of the key used longest ago |
| RateLimiter.LoginRateLimiter.Sweep | backend/app/security.py:421-431 | every deque is the old one or the old one pruned, so no window changes |
| RateLimiter.LoginRateLimiter.EvictForNew | backend/app/security.py:442-443 | drops at most one key, the least recently used, and makes room |
| RateLimiter.LoginRateLimiter.Reset | backend/app/security.py:459-462 | forgets exactly one key's history |
| RateLimiter.LoginRateLimiter.TrackedKeys | backend/app/security.py:464-466 | at most `max_keys` keys are tracked |
| RateLimiter.WindowBound | backend/app/security.py:433-457 | over every run and every window of time a key has at most `limit` accepted consuming checks since its last reset or eviction |
| RateLimiter.PruningKeepsAgreement | backend/app/security.py:424-430 | pruning, by sweep or check, never changes what a later window holds |
| RateLimiter.Lookup | backend/app/security.py:447-450 | the pruned deque's length is the window's count, and Retry-After lies between 1 and the window |
| RateLimiter.RetryAfterMeans | backend/app/security.py:450 | after Retry-After the oldest attempt has left the window or leaves it within a second, and unless that is one second not before |
| SessionPruning.KeepsTheFirst | backend/app/security.py:382-393 | pruning keeps min(keep, size) sessions, each ahead of every dropped one by last use, creation and id |
| AccessFencing.AuthStore.GetAuthContext | backend/app/security.py:231-291 | the verdict of the ordered checks, and exactly which row is deleted or touched |
| AccessFencing.AcceptedMeans | backend/app/security.py:241-278 | exactly what a session needs to be accepted |
| AccessFencing.ReadKeeps | backend/app/security.py:241-290 | a read leaves every other session alone, keeps an accepted one accepted with at most its last use changed, and drops exactly expired, disabled and fenced-off ones |
| AccessFencing.AuthStore.CreateWebSession | backend/app/security.py:182-228 | expired sessions go, room is made under both limits, then the session is added; which sessions are left is in `CreationLeaves` |
| AccessFencing.CreationLeaves | backend/app/security.py:182-228 | creating a session removes the expired ones, leaves live ones as they are, and pushes a live one out only under a limit that counts it and was full |
| AccessFencing.LimitsAre | backend/app/limits.py:5-7 | what each of the three limits counts, and how many |
| AccessFencing.AuthStore.PruneSessionScope | backend/app/security.py:382-393 | of the sessions a limit counts as many as allowed stay, each ahead of each that goes by last use, creation and id, and no other session is touched |
| AccessFencing.AuthStore.DeletePasskey | backend/app/routers/auth.py:536-588 | not found without effect, or the whole new state: generation, sessions, tokens, passkeys |
| AccessFencing.AuthStore.AuthenticatePasskey | backend/app/services/passkeys.py:225-243 | succeeds exactly for a passkey of an enabled account's current generation |
| AccessFencing.PrunedMeans | backend/app/security.py:382-393 | what the deleting query computes has that meaning |
| AccessFencing.OnlyPruning | backend/app/security.py:382-393 | and no other result has it |
| AccessFencing.AuthStore.RegisterPasskey | backend/app/routers/auth.py:502-532 | a passkey registered with the session's generation can log in exactly when that is still the account's |
| AccessFencing.PrunedKeepsRecent | backend/app/security.py:387-391 | a session that stays is ahead of every one that goes |
| AccessFencing.CreationCapped | backend/app/security.py:194-212 | creating a session keeps the limits of every account and share token |
| AccessFencing.LimitsHold | backend/app/limits.py:3-7 | in every reachable state no account has more than 50 sessions or 10 IMT sessions and no share token more than 5 |
| AccessFencing.ChecksAgree | backend/app/security.py:294-318 | the two session checks differ exactly on stray tokens |
| AccessFencing.ReachableChecksAgree | backend/app/security.py:241-318 | in every reachable state they agree on every session, and a deletion keeps every accepted non-passkey session accepted |
| AccessFencing.DeletionDecides | backend/app/routers/auth.py:549-579 | after a deletion exactly the account's non-passkey sessions meeting every condition but the generation are accepted |
| AccessFencing.DeletionDecidesPasskeys | backend/app/routers/auth.py:570-579 | after a deletion exactly the account's other passkeys can log in, of whatever generation they were, if it is not disabled |
| AccessFencing.DeletionDecidesTokens | backend/app/routers/auth.py:568-569 | likewise exactly its share tokens that are neither revoked nor expired |
| AccessFencing.StaleSessionRevived | backend/app/routers/auth.py:360-373 | the run in which a session inserted with a generation read before one deletion is refused after it and accepted after the next |
| AccessFencing.OthersStayAccepted | backend/app/routers/auth.py:557-579 | non-passkey sessions, and all sessions of other accounts, stay accepted |
| AccessFencing.OtherPasskeysStayUsable | backend/app/routers/auth.py:570-579 | the account's other usable passkeys stay usable, the deleted one is not |
| AccessFencing.StepFenced | backend/app/routers/auth.py:434-442 | every kind of step keeps the fence: a generation held for a deleted passkey is behind its account's |
| AccessFencing.DeletedPasskeyNeverAccepted | backend/app/routers/auth.py:415-463 | in every interleaving of two-step logins with deletions and administrative actions, no session opened with a deleted passkey is ever accepted by either check, however late it was inserted |
| AccessFencing.PasskeyUsableMeans | backend/app/services/passkeys.py:231-243 | exactly what a passkey needs to log in |
| AccessFencing.TokenUsableMeans | backend/app/routers/auth.py:352-362 | exactly what a share token needs to log in |
| AccessFencing.DisablingMeans | backend/app/routers/admin.py:809-822 | disabling logs the account out, revokes its share tokens and starts a generation if it was enabled; nothing of other accounts changes |
| AccessFencing.EnablingMeans | backend/app/routers/admin.py:826-831 | enabling starts a generation if the account was disabled, and nothing else changes |
| AccessFencing.RevokingMeans | backend/app/routers/admin.py:832-842 | revoking logs the account out, deletes its passkeys, revokes its tokens and starts a generation |
| AccessFencing.DisablingFencesPasskeys | backend/app/routers/admin.py:809-831 | no passkey from before works while the account is disabled or after it is enabled again |
| AccessFencing.DroppedTokenMeans | backend/app/routers/tokens.py:38-45 | sessions of a dropped share token are refused from then on, others stay as they were |
| AccessFencing.RevokedTokenMeans | backend/app/routers/tokens.py:133-147 | a revoked share token can log in no more and none of its sessions is accepted; the first revocation deletes them, other sessions stay |
| AccessFencing.PasskeyLoginWorks | backend/app/routers/auth.py:415-463 | a login with a usable passkey that nothing comes between opens a session that is accepted |
| AccessFencing.LoginWorks | backend/app/routers/auth.py:345-373 | other logins open a session that is accepted exactly if the generation read is still current and account and token may log in |
| AccessFencing.AdministrationWorks | backend/app/routers/admin.py:809-842 | disabling, enabling and revoking change exactly what they are for, on that account alone |
| Utf8.EncodeIffDecode | backend/app/crypto/secret_frames.py:26-73 | encoding and strict decoding are inverse, both ways, on exactly what they accept |
| Utf8.EncodeInjective | backend/app/crypto/hpke_context.py:132-158 | distinct texts have distinct encodings |
| HpkeContext.EncodeInfoInjective | backend/app/crypto/hpke_context.py:179-229 | equal info strings come only from equal versions, suite, purpose, profile, key id, length and context, so the two kinds never collide |
| HpkeContext.EncodeInfoAccepts | backend/app/crypto/hpke_context.py:226-229 | the size check never fires: exactly the well-formed arguments are accepted |
| HpkeContext.InfoLength | backend/app/crypto/hpke_context.py:132-229 | the exact size of every info string |
| HpkeContext.ShortInfoIff | backend/app/crypto/hpke_context.py:132-229 | within 292 bytes exactly for sync credentials and logins of at most 143 bytes |
| HpkeContext.LongestInfo | backend/app/crypto/hpke_context.py:103-158 | a valid context whose info string takes 309 bytes |
| HpkeContext.FieldsInjective | backend/app/crypto/hpke_context.py:126-158 | the length-prefixed fields determine the context |
| HpkeContext.UnpackPacked | backend/app/crypto/hpke_context.py:126-129 | big-endian integers of fixed width read back |
| HpkeContext.LeadingByte | backend/app/crypto/hpke_context.py:126-129 | the first byte of an integer weighs most |
| HpkeContext.PackedEnds | backend/app/crypto/hpke_context.py:126-129 | integers of two and four bytes, byte by byte |
| HpkeContext.ContextBounds | backend/app/crypto/hpke_context.py:61-82 | logins have at least 2 characters and at most 160 bytes, both attained; generations and consent versions run from 1 to 2^63 - 1 |
| HpkeContext.FieldIs | backend/app/crypto/hpke_context.py:126-129 | each field is its tag, its length in two bytes, high byte first, and its value |
| HpkeContext.FieldsAre | backend/app/crypto/hpke_context.py:132-158 | the fields of each kind of context in order |
| HpkeContext.ArgumentsAre | backend/app/crypto/hpke_context.py:197-228 | which arguments are well-formed, and every byte of the head of an info string |
| HpkeContext.BoundMeans | backend/app/crypto/hpke_context.py:161-176 | the purpose and the profile each go with exactly one kind of context |
| SecretFrames.PasswordFrameRoundTrip | backend/app/crypto/secret_frames.py:26-73 | a frame decodes to a password exactly when it is that password's encoding for the padding it carries |
| SecretFrames.SessionFrameRoundTrip | backend/app/crypto/secret_frames.py:76-119 | likewise for a session snapshot |
| SecretFrames.PasswordBytesFit | backend/app/crypto/secret_frames.py:26-48 | the byte limit refuses no password within the character limit |
| SecretFrames.PasswordDecodes | backend/app/crypto/secret_frames.py:26-73 | every accepted password comes back from its 3072-byte frame, for every padding |
| SecretFrames.SnapshotDecodes | backend/app/crypto/secret_frames.py:76-119 | every accepted snapshot comes back from its 65552-byte frame, for every padding |
| SecretFrames.PasswordFrameIs | backend/app/crypto/secret_frames.py:26-48 | a password frame byte by byte |
| SecretFrames.SessionFrameIs | backend/app/crypto/secret_frames.py:76-98 | a session frame byte by byte |
| HpkeEnvelopes.BuildKeyring | backend/app/crypto/hpke_envelope.py:140-167 | accepts exactly distinct, well-named entries containing the active id, and then holds exactly those |
| HpkeEnvelopes.ParseIffSerialized | backend/app/crypto/hpke_envelope.py:250-293 | bytes parse to an envelope exactly when its fields serialise to those bytes |
| HpkeEnvelopes.ParseMeans | backend/app/crypto/hpke_envelope.py:226-293 | which bytes parse, to which fields, and which are refused as unsupported rather than malformed |
| HpkeEnvelopes.EnvelopeSize | backend/app/crypto/hpke_envelope.py:242-247 | an accepted envelope has 3172 or 65652 bytes, by its profile |
| HpkeEnvelopes.SealSucceeds | backend/app/crypto/hpke_envelope.py:320-362 | sealing succeeds exactly on a bound context and a whole frame, and its envelope parses back to itself |
| HpkeEnvelopes.OpenAfterSeal | backend/app/crypto/hpke_envelope.py:365-400 | opening with the same purpose, profile and context gives the plaintext, or says the key is missing |
| HpkeEnvelopes.IdealIsPossible | backend/app/crypto/hpke_envelope.py:320-400 | the hypotheses about HPKE can be met |
| HpkeEnvelopes.OpensOnlyInItsContext | backend/app/crypto/hpke_envelope.py:365-400 | opening with any other purpose, profile or context fails, with which error |
| HpkeEnvelopes.PasswordTravels | backend/app/crypto/hpke_envelope.py:320-400 | password to frame to envelope and back, for every padding and ephemeral key |
| HpkeEnvelopes.SnapshotTravels | backend/app/crypto/hpke_envelope.py:320-400 | likewise for a session snapshot |
| HpkeEnvelopes.HexRoundTrip | backend/app/crypto/hpke_envelope.py:70-72 | key ids are the lower-case hex of digests and read back |
| HpkeEnvelopes.HexIs | backend/app/crypto/hpke_envelope.py:70-72 | high digit first, lower case |
| HpkeEnvelopes.CanonicalUuidMeans | backend/app/crypto/hpke_context.py:49-58 | the ids accepted are exactly the hyphenated lower-case hex of sixteen bytes not all zero |
| OperationalSequence.InsertsDrawConsecutively | backend/alembic/versions/0006_pass_access.py:65-71 | a run of default inserts draws consecutive ids, rolled back or not, and collides exactly at ids present before it |
| OperationalSequence.InsertsLeaveRows | backend/alembic/versions/0006_pass_access.py:65-71 | exactly the inserts that were committed and did not collide leave their row |
| OperationalSequence.NeverCollidesIff | backend/app/operational_sequence_reconciliation_v1.py:73-79 | no run of inserts ever collides exactly when no row lies between the next value and the maximum |
| OperationalSequence.MigrationHazard | backend/alembic/versions/0006_pass_access.py:65-71 | after the migration's explicit row the first default insert collides, and once repaired it gets id 2 |
| OperationalSequence.SafeIffReconciled | backend/app/operational_sequence_reconciliation_v1.py:73-79 | the inspected state says safe exactly when the sequence was drawn from and its next value is above every row |
| OperationalSequence.AnchorRepairs | backend/app/operational_sequence_reconciliation_v1.py:292-312 | setting the anchor never lowers the sequence or its next value, passes inspection, and no run of inserts collides afterwards |
| OperationalSequence.SetAtMostOnce | backend/app/operational_sequence_reconciliation_v1.py:397-443 | over any run of repairs and inserts the sequence is set at most once |
| OperationalSequence.DrawsAreFresh | backend/app/operational_sequence_reconciliation_v1.py:397-443 | no value is issued twice, repairs included, and after a repair no draw collides |
| SequenceReconciliation.Connection.Reconcile | backend/app/operational_sequence_reconciliation_v1.py:397-443 | for every behaviour of the server: exactly when the sequence is set, to what, and the result or failure reported |
| SequenceReconciliation.GatesMean | backend/app/operational_sequence_reconciliation_v1.py:397-412 | exactly when a reconciliation gets past revision, locks and quiescence, and which failure is named |
| SequenceReconciliation.Connection.SetSequenceValue | backend/app/operational_sequence_reconciliation_v1.py:381-394 | the one write, and which answers leave it unknown |
| SequenceReconciliation.Connection.ApplyAnchor | backend/app/operational_sequence_reconciliation_v1.py:412-443 | success exactly when the write's result and both reads after it confirm it |
| SequenceReconciliation.MutationStateMeans | backend/app/operational_sequence_reconciliation_v1.py:46-55 | what a failure's mutation state says about the write, and exactly when "none" is wrong |
| SequenceReconciliation.ApplyOnce | backend/app/operational_sequence_tool.py:131-154 | the apply transaction: exactly when it succeeds and writes, and its receipt |
| SequenceReconciliation.ApplyMeans | backend/app/operational_sequence_tool.py:131-154 | exactly which answers of the server let an apply write, and which let it succeed |
| SequenceReconciliation.ExecuteOperator | backend/app/operational_sequence_tool.py:43-161 | check mode never writes; nothing is changed and no apply succeeds without the literal confirmation and the attestation; a successful receipt counts the writes exactly and reports the store's safety; a blocked one never counts a write that did not happen, and when it denies one that did; a rollback that raises is reported as unknown |
| SequenceReconciliation.OptionsRefused | backend/app/operational_sequence_tool.py:108-115 | which arguments are refused with which code |
| SequenceReconciliation.ReceiptDeniesWrite | backend/app/operational_sequence_tool.py:131-161 | the run in which the operator sets the sequence and reports that nothing changed |
| EventLog.EventStore.RecordEvent | backend/app/services/events.py:10-35 | the account's log becomes the newest min(n, 2000) of its events, no other account's changes |
| EventLog.CutKeepsNewest | backend/app/services/events.py:21-34 | deleting below the computed cutoff keeps exactly the newest events |
| EventLog.RecordingRetains | backend/app/services/events.py:10-35 | recording keeps every account's log exact against the full history |
| EventStreams.StreamEvents | backend/app/routers/events.py:58-100 | the frames of a stream are a retry hint, then poll by poll its updates and its ping if it pings, then a closing frame exactly when the session is inactive; the updates are those of `DeliveredMeans` and `ShownMeans` |
| EventStreams.ServePoll | backend/app/routers/events.py:83-97 | one poll sends exactly its frames and moves the cursor and the idle count |
| EventStreams.PingsWhenSilent | backend/app/routers/events.py:92-97 | a poll pings exactly when it and the thirteen before it deliver nothing and none of the fourteen before it pings; the ping carries the cursor that poll reached |
| EventStreams.NeverSilentForLong | backend/app/routers/events.py:92-97 | among any fifteen polls one sends a frame |
| EventStreams.FramesDeliver | backend/app/routers/events.py:83-92 | the updates among the frames are the delivered ids in order |
| EventStreams.SendPage | backend/app/routers/events.py:82-92 | one page moves the cursor over every event and sends those that may be shown |
| EventStreams.PageMeans | backend/app/routers/events.py:66-74 | a page is exactly the log's events between the old and the new cursor |
| EventStreams.DeliveredMeans | backend/app/routers/events.py:61-92 | ids are strictly increasing, each at most once, and exactly those found between two cursors and showable |
| EventStreams.ShownMeans | backend/app/routers/events.py:85-86 | a stream without simulations hides exactly the events whose kind starts with "simulation:" |
| EventStreams.OnlyPrunedOrHiddenOmitted | backend/app/routers/events.py:61-92 | for every recorded event up to the cursor, the poll that passed it delivered it, may not show it as a simulation, or no longer found it in the log |
| EventStreams.ShortPageCatchesUp | backend/app/routers/events.py:66-74 | a page that is not full leaves no logged event behind the cursor |

## Left out

- File system: permissions, symbolic and hard links, descriptors, umask, locking, root checks, and the primitives of `provision` before its first key file (creating and opening the temporary directory).
- KeysetDirectories.KeysetDirectory.ReplaceManifest: a refused replacement leaves no temporary file; the source ignores a failure to unlink it (deploy/security/sync_hpke_keysets.py:106-109), and such a file would make later verifications fail.
- KeysetDirectories.KeysetDirectory.PrepareRotation: manifests have no size limit; the source refuses one longer than 32768 bytes (deploy/security/sync_hpke_keysets.py:95-96), which many preparations would reach since entries are never removed.
- KeysetRuns.RunVerified: calls that end neither restored nor in place are not among its steps; `PrepareIsStep` and `RetireIsStep` say exactly which those are.
- KeysetRuns.NoEnvelopeStranded: sealing is atomic with reading the active generation, and the reference count given to retirement is the true one, which the operator must ensure.
- JSON: manifests are values; one that does not decode or has the wrong shape is `Malformed`.
- Errors are merged where the source gives several codes for one branch of a shape check.
- LearningBundle.ValidateGraph: covers the graph conditions; release modes, review status, presentation fields of later schemas, reader titles and excerpts are single-entry conditions that only reject more.
- Bundle loading: reading, checksumming and inventorying release files; opening an asset ends at the lookup.
- SearchRanking.Search: excerpts and estimated minutes are not carried in results, and Unicode normalisation is an arbitrary function; the semaphore is one flag.
- BundleCache: loading is a function of the key, and the lock makes calls atomic.
- MathBraces.ValidateMathSource: the two text filters before the brace loop.
- RateLimiter.LoginRateLimiter.Check: clock values do not decrease in lock order, and arithmetic on them is exact rather than in floating point.
- AccessFencing: transactions and the two halves of a login are atomic, so database isolation is not modelled; HTTP, CSRF, cookies and digests; WebAuthn verification itself; roles; the retention rule that picks which share tokens to drop (any may be dropped at any time); registered passkey ids are fresh.
- SessionPruning.KeepsTheFirst: ids compare by code point, standing for the database's collation in the final tie-break.
- HpkeContext: login normalisation happens before; contexts hold logins already normalised. Argument types are those declared.
- HpkeEnvelopes: X25519, HKDF, ChaCha20-Poly1305 and SHA-256, replaced by the ideal pair above.
- SequenceReconciliation.Connection.Reconcile: catalogue queries, locks and quiescence are each one arbitrary outcome; inserts during the locked repair are excluded as the locks exclude them. A read that fails with an error other than a database error is not modelled; the operator reports those as unknown (backend/app/operational_sequence_tool.py:160-161).
- EventLog.EventStore.RecordEvent: payload and actor; ids ascend in commit order.
- EventStreams.StreamEvents: payload encoding and waiting; a disconnect is the end of the list of polls.
- Grade arithmetic, job scheduling, calendars, the administration interface and the frontend.
