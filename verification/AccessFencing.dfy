/** Sessions, share tokens and passkeys of an account, fenced by its access generation. */
module AccessFencing {
  import opened Wrappers
  import opened SessionPruning

  const MAX_SESSIONS_PER_ACCOUNT := 50
  const MAX_OWNER_SESSIONS_PER_ACCOUNT := 10
  const MAX_SESSIONS_PER_SHARE_TOKEN := 5

  datatype AuthMethod = Imt | Passkey | Token

  datatype Account = Account(generation: nat, disabled: bool)

  /** `openedWith` records, for the statements below, the passkey a session was opened with. */
  datatype Session = Session(
    accountId: Id, shareTokenId: Option<Id>, generation: nat, authMethod: AuthMethod, expiresAt: Time,
    lastSeenAt: Time, createdAt: Time, openedWith: Option<Id>)

  datatype ShareToken = ShareToken(accountId: Id, generation: nat, revoked: bool, expiresAt: Option<Time>)

  datatype PasskeyCredential = PasskeyCredential(accountId: Id, generation: nat)

  datatype Db = Db(
    accounts: map<Id, Account>, sessions: map<Id, Session>, tokens: map<Id, ShareToken>,
    passkeys: map<Id, PasskeyCredential>)

  // ---- Reading a session ----

  datatype Verdict = Authenticated | Unauthenticated | Disabled | Revoked | Expired

  /** The share token still gives access: live, of the current generation, and the session's. */
  function ShareVerdict(db: Db, s: Session, now: Time): Verdict
    requires s.accountId in db.accounts && s.shareTokenId.Some?
  {
    if s.shareTokenId.value !in db.tokens then Revoked
    else
      var share := db.tokens[s.shareTokenId.value];
      if share.revoked || share.generation != db.accounts[s.accountId].generation || share.generation != s.generation
      then Revoked
      else if share.expiresAt.Some? && share.expiresAt.value <= now then Expired
      else Authenticated
  }

  /** The verdict of `get_auth_context`, checks in the source's order. */
  function AuthVerdict(db: Db, sessionId: Id, now: Time): Verdict {
    if sessionId !in db.sessions || db.sessions[sessionId].expiresAt <= now then Unauthenticated
    else
      var s := db.sessions[sessionId];
      if s.accountId !in db.accounts then Unauthenticated
      else if db.accounts[s.accountId].disabled then Disabled
      else if s.generation != db.accounts[s.accountId].generation then Revoked
      else if s.authMethod.Token? && s.shareTokenId.None? then Revoked
      else if s.shareTokenId.Some? then ShareVerdict(db, s, now)
      else Authenticated
  }

  /** The rows it deletes on the way: expired, disabled and fenced-off sessions. */
  predicate DropsSession(db: Db, sessionId: Id, now: Time) {
    && sessionId in db.sessions
    && var s := db.sessions[sessionId];
    s.expiresAt <= now
    || (s.accountId in db.accounts
        && (db.accounts[s.accountId].disabled || s.generation != db.accounts[s.accountId].generation))
  }

  /** The sessions after a read: a dropped row is gone, and an accepted session is marked as seen
      once it was last seen long enough ago, or when a digest of it was re-keyed. */
  function SessionsRead(db: Db, sessionId: Id, now: Time, touchAfter: Time, rekeyed: bool): map<Id, Session> {
    if DropsSession(db, sessionId, now) then db.sessions - {sessionId}
    else if AuthVerdict(db, sessionId, now).Authenticated?
            && (rekeyed || db.sessions[sessionId].lastSeenAt + touchAfter < now)
    then db.sessions[sessionId := db.sessions[sessionId].(lastSeenAt := now)]
    else db.sessions
  }

  /** A read leaves every other session alone. An accepted session stays accepted, with nothing changed
      but perhaps the time it was last seen; a session that is dropped was not accepted. */
  lemma ReadKeeps(db: Db, sessionId: Id, now: Time, touchAfter: Time, rekeyed: bool)
    ensures var after := SessionsRead(db, sessionId, now, touchAfter, rekeyed);
            && (forall id :: id != sessionId ==> (id in after <==> id in db.sessions))
            && (forall id :: id != sessionId && id in after ==> after[id] == db.sessions[id])
            && (AuthVerdict(db, sessionId, now) == Authenticated ==>
                  && sessionId in db.sessions && sessionId in after
                  && AuthVerdict(db.(sessions := after), sessionId, now) == Authenticated
                  && var s := db.sessions[sessionId];
                     after[sessionId] == if rekeyed || now - s.lastSeenAt > touchAfter then s.(lastSeenAt := now) else s)
            && (sessionId in db.sessions && AuthVerdict(db, sessionId, now) != Authenticated ==>
                  var s := db.sessions[sessionId];
                  if s.expiresAt <= now
                     || (s.accountId in db.accounts
                         && (db.accounts[s.accountId].disabled || db.accounts[s.accountId].generation != s.generation))
                  then sessionId !in after else sessionId in after && after[sessionId] == s)
  {
  }

  /** Exactly what a session needs to be accepted. */
  lemma AcceptedMeans(db: Db, sessionId: Id, now: Time)
    ensures AuthVerdict(db, sessionId, now) == Authenticated
       <==> && sessionId in db.sessions
            && var s := db.sessions[sessionId];
            && s.expiresAt > now
            && s.accountId in db.accounts && !db.accounts[s.accountId].disabled
            && s.generation == db.accounts[s.accountId].generation
            && (s.authMethod == Token ==> s.shareTokenId.Some?)
            && (s.shareTokenId.Some? ==>
                  && s.shareTokenId.value in db.tokens
                  && var share := db.tokens[s.shareTokenId.value];
                  && !share.revoked && share.generation == s.generation
                  && (share.expiresAt.Some? ==> share.expiresAt.value > now))
  {
  }

  /** The long-lived stream's check, which only looks at the token of token sessions. */
  predicate SessionIsActive(db: Db, sessionId: Id, accountId: Id, now: Time) {
    && sessionId in db.sessions
    && var s := db.sessions[sessionId];
    && s.accountId == accountId && s.expiresAt > now
    && accountId in db.accounts && !db.accounts[accountId].disabled
    && s.generation == db.accounts[accountId].generation
    && (s.authMethod.Token? ==> s.shareTokenId.Some? && ShareVerdict(db, s, now).Authenticated?)
  }

  predicate StrayToken(db: Db, sessionId: Id, now: Time)
    requires sessionId in db.sessions
  {
    var s := db.sessions[sessionId];
    && SessionIsActive(db, sessionId, s.accountId, now)
    && !s.authMethod.Token? && s.shareTokenId.Some? && !ShareVerdict(db, s, now).Authenticated?
  }

  /** The two checks differ exactly on a session that is not a token session, carries a share
      token id all the same, and whose token no longer gives access. */
  lemma ChecksAgree(db: Db, sessionId: Id, now: Time)
    requires sessionId in db.sessions
    ensures var sameAnswer := AuthVerdict(db, sessionId, now).Authenticated?
                           == SessionIsActive(db, sessionId, db.sessions[sessionId].accountId, now);
            sameAnswer <==> !StrayToken(db, sessionId, now)
  {
  }

  /** In particular they agree whenever a share token id implies the token method. */
  lemma ChecksAgreeOnTokens(db: Db, sessionId: Id, now: Time)
    requires sessionId in db.sessions
    requires db.sessions[sessionId].shareTokenId.Some? ==> db.sessions[sessionId].authMethod.Token?
    ensures AuthVerdict(db, sessionId, now).Authenticated?
       <==> SessionIsActive(db, sessionId, db.sessions[sessionId].accountId, now)
  {
    ChecksAgree(db, sessionId, now);
  }

  // ---- Changing rows ----

  function WithoutPasskeySessions(sessions: map<Id, Session>, accountId: Id): map<Id, Session> {
    map id | id in sessions && !(sessions[id].accountId == accountId && sessions[id].authMethod.Passkey?) :: sessions[id]
  }

  function SessionsRestamped(sessions: map<Id, Session>, accountId: Id, g: nat): map<Id, Session> {
    map id | id in sessions ::
      if sessions[id].accountId == accountId then sessions[id].(generation := g) else sessions[id]
  }

  function TokensRestamped(tokens: map<Id, ShareToken>, accountId: Id, g: nat): map<Id, ShareToken> {
    map id | id in tokens ::
      if tokens[id].accountId == accountId then tokens[id].(generation := g) else tokens[id]
  }

  function OthersRestamped(
    passkeys: map<Id, PasskeyCredential>, accountId: Id, passkeyId: Id, g: nat): map<Id, PasskeyCredential>
  {
    map id | id in passkeys ::
      if passkeys[id].accountId == accountId && id != passkeyId then passkeys[id].(generation := g) else passkeys[id]
  }

  /** Deleting a passkey: a new generation, passkey sessions gone, every other session, token and
      passkey of the account moved to the new generation. */
  function PasskeyDeleted(db: Db, accountId: Id, passkeyId: Id): Db
    requires accountId in db.accounts
  {
    var g := db.accounts[accountId].generation + 1;
    Db(db.accounts[accountId := db.accounts[accountId].(generation := g)],
       SessionsRestamped(WithoutPasskeySessions(db.sessions, accountId), accountId, g),
       TokensRestamped(db.tokens, accountId, g),
       OthersRestamped(db.passkeys, accountId, passkeyId, g) - {passkeyId})
  }

  /** A passkey can be used to log in. */
  predicate PasskeyUsable(db: Db, passkeyId: Id) {
    && passkeyId in db.passkeys
    && var k := db.passkeys[passkeyId];
    && k.accountId in db.accounts && !db.accounts[k.accountId].disabled
    && k.generation == db.accounts[k.accountId].generation
  }

  /** An administrator's disable, enable and revoke actions, each starting a new generation. */
  function AccountDisabled(db: Db, accountId: Id): Db
    requires accountId in db.accounts
  {
    var a := db.accounts[accountId];
    db.(accounts := db.accounts[accountId := Account(if a.disabled then a.generation else a.generation + 1, true)],
        sessions := map id | id in db.sessions && db.sessions[id].accountId != accountId :: db.sessions[id],
        tokens := TokensRevoked(db.tokens, accountId))
  }

  function AccountEnabled(db: Db, accountId: Id): Db
    requires accountId in db.accounts
  {
    var a := db.accounts[accountId];
    db.(accounts := db.accounts[accountId := Account(if a.disabled then a.generation + 1 else a.generation, false)])
  }

  function AccessRevoked(db: Db, accountId: Id): Db
    requires accountId in db.accounts
  {
    var a := db.accounts[accountId];
    Db(db.accounts[accountId := a.(generation := a.generation + 1)],
       map id | id in db.sessions && db.sessions[id].accountId != accountId :: db.sessions[id],
       TokensRevoked(db.tokens, accountId),
       map id | id in db.passkeys && db.passkeys[id].accountId != accountId :: db.passkeys[id])
  }

  function TokensRevoked(tokens: map<Id, ShareToken>, accountId: Id): map<Id, ShareToken> {
    map id | id in tokens ::
      if tokens[id].accountId == accountId then tokens[id].(revoked := true) else tokens[id]
  }

  function PasskeysOf(db: Db, accountId: Id): set<Id> {
    set id | id in db.passkeys && db.passkeys[id].accountId == accountId
  }

  /** Nothing of the other accounts is touched. */
  ghost predicate OthersUntouched(db: Db, accountId: Id, after: Db) {
    && after.accounts.Keys == db.accounts.Keys && after.tokens.Keys == db.tokens.Keys
    && (forall a :: a in db.accounts && a != accountId ==> after.accounts[a] == db.accounts[a])
    && (forall id :: id in db.sessions && db.sessions[id].accountId != accountId ==>
          id in after.sessions && after.sessions[id] == db.sessions[id])
    && (forall t :: t in db.tokens && db.tokens[t].accountId != accountId ==> after.tokens[t] == db.tokens[t])
    && (forall p :: p in db.passkeys && db.passkeys[p].accountId != accountId ==>
          p in after.passkeys && after.passkeys[p] == db.passkeys[p])
    && (forall id :: id in after.sessions ==> id in db.sessions)
    && (forall p :: p in after.passkeys ==> p in db.passkeys)
  }

  /** The account has no session left, and its share tokens are revoked. */
  ghost predicate LoggedOut(db: Db, accountId: Id, after: Db) {
    && (forall id :: id in after.sessions ==> after.sessions[id].accountId != accountId)
    && forall t :: t in db.tokens && db.tokens[t].accountId == accountId ==>
         t in after.tokens && after.tokens[t] == db.tokens[t].(revoked := true)
  }

  /** Disabling logs the account out and, if it was enabled, starts a new generation; its passkeys stay. */
  lemma DisablingMeans(db: Db, accountId: Id)
    requires accountId in db.accounts
    ensures var a, after := db.accounts[accountId], AccountDisabled(db, accountId);
            && OthersUntouched(db, accountId, after) && LoggedOut(db, accountId, after)
            && after.accounts[accountId] == Account(if a.disabled then a.generation else a.generation + 1, true)
            && after.passkeys == db.passkeys
  {
  }

  /** Enabling a disabled account starts yet another generation, so nothing from before works again. */
  lemma EnablingMeans(db: Db, accountId: Id)
    requires accountId in db.accounts
    ensures var a, after := db.accounts[accountId], AccountEnabled(db, accountId);
            && OthersUntouched(db, accountId, after)
            && after.accounts[accountId] == Account(if a.disabled then a.generation + 1 else a.generation, false)
            && after.sessions == db.sessions && after.tokens == db.tokens && after.passkeys == db.passkeys
  {
  }

  /** Revoking access logs the account out, deletes its passkeys and starts a new generation. */
  lemma RevokingMeans(db: Db, accountId: Id)
    requires accountId in db.accounts
    ensures var a, after := db.accounts[accountId], AccessRevoked(db, accountId);
            && OthersUntouched(db, accountId, after) && LoggedOut(db, accountId, after)
            && after.accounts[accountId] == Account(a.generation + 1, a.disabled)
            && forall p :: p in after.passkeys ==> after.passkeys[p].accountId != accountId
  {
  }

  /** A passkey of the account's current generation or an earlier one cannot log in after the account
      was disabled, nor after it was enabled again. */
  lemma DisablingFencesPasskeys(db: Db, accountId: Id, passkeyId: Id)
    requires accountId in db.accounts && passkeyId in db.passkeys && db.passkeys[passkeyId].accountId == accountId
    requires db.passkeys[passkeyId].generation <= db.accounts[accountId].generation
    ensures !PasskeyUsable(AccountDisabled(db, accountId), passkeyId)
    ensures !PasskeyUsable(AccountEnabled(AccountDisabled(db, accountId), accountId), passkeyId)
  {
  }

  /** Exactly what a passkey needs to log in. */
  lemma PasskeyUsableMeans(db: Db, passkeyId: Id)
    ensures PasskeyUsable(db, passkeyId)
       <==> exists accountId :: && accountId in db.accounts && !db.accounts[accountId].disabled
                                && passkeyId in db.passkeys
                                && db.passkeys[passkeyId] == PasskeyCredential(accountId, db.accounts[accountId].generation)
  {
    if PasskeyUsable(db, passkeyId) {
      var accountId := db.passkeys[passkeyId].accountId;
      assert db.passkeys[passkeyId] == PasskeyCredential(accountId, db.accounts[accountId].generation);
    }
  }

  datatype HandlerError = NotFound | PasskeyUnavailable

  /** The tables, changed row by row as the handlers do; each method is one transaction. */
  class AuthStore {
    var accounts: map<Id, Account>
    var sessions: map<Id, Session>
    var tokens: map<Id, ShareToken>
    var passkeys: map<Id, PasskeyCredential>

    function Rows(): Db
      reads this
    {
      Db(accounts, sessions, tokens, passkeys)
    }

    method GetAuthContext(sessionId: Id, now: Time, touchAfter: Time, rekeyed: bool) returns (verdict: Verdict)
      modifies this`sessions
      ensures verdict == AuthVerdict(old(Rows()), sessionId, now)
      ensures sessions == SessionsRead(old(Rows()), sessionId, now, touchAfter, rekeyed)
    {
      if sessionId !in sessions || sessions[sessionId].expiresAt <= now {
        sessions := sessions - {sessionId};
        return Unauthenticated;
      }
      var s := sessions[sessionId];
      if s.accountId !in accounts {
        return Unauthenticated;
      }
      if accounts[s.accountId].disabled {
        sessions := sessions - {sessionId};
        return Disabled;
      }
      if s.generation != accounts[s.accountId].generation {
        sessions := sessions - {sessionId};
        return Revoked;
      }
      if s.authMethod.Token? && s.shareTokenId.None? {
        return Revoked;
      }
      if s.shareTokenId.Some? {
        if s.shareTokenId.value !in tokens {
          return Revoked;
        }
        var share := tokens[s.shareTokenId.value];
        if share.revoked || share.generation != accounts[s.accountId].generation || share.generation != s.generation {
          return Revoked;
        }
        if share.expiresAt.Some? && share.expiresAt.value <= now {
          return Expired;
        }
      }
      if rekeyed || s.lastSeenAt + touchAfter < now {
        sessions := sessions[sessionId := s.(lastSeenAt := now)];
      }
      verdict := Authenticated;
    }

    method DeletePasskey(accountId: Id, passkeyId: Id) returns (r: Result<(), HandlerError>)
      modifies this
      ensures r.Ok? <==>
                && passkeyId in old(passkeys) && old(passkeys)[passkeyId].accountId == accountId
                && accountId in old(accounts)
      ensures Rows() == if r.Ok? then PasskeyDeleted(old(Rows()), accountId, passkeyId) else old(Rows())
    {
      if passkeyId !in passkeys || passkeys[passkeyId].accountId != accountId {
        return Err(NotFound);
      }
      if accountId !in accounts {
        return Err(NotFound);
      }
      var generation := accounts[accountId].generation + 1;
      accounts := accounts[accountId := accounts[accountId].(generation := generation)];
      sessions := WithoutPasskeySessions(sessions, accountId);
      sessions := SessionsRestamped(sessions, accountId, generation);
      tokens := TokensRestamped(tokens, accountId, generation);
      passkeys := OthersRestamped(passkeys, accountId, passkeyId, generation);
      passkeys := passkeys - {passkeyId};
      r := Ok(());
    }

    /** First half of a passkey login: the challenge answer is checked against the stored row. */
    method AuthenticatePasskey(passkeyId: Id) returns (r: Result<(Id, nat), HandlerError>)
      ensures r.Ok? <==> PasskeyUsable(Rows(), passkeyId)
      ensures r.Ok? ==> r.value == (passkeys[passkeyId].accountId, passkeys[passkeyId].generation)
    {
      if passkeyId !in passkeys {
        return Err(PasskeyUnavailable);
      }
      var k := passkeys[passkeyId];
      if k.accountId !in accounts || accounts[k.accountId].disabled || k.generation != accounts[k.accountId].generation {
        return Err(PasskeyUnavailable);
      }
      r := Ok((k.accountId, k.generation));
    }

    /** The limits' `DELETE`: of the sessions a limit counts, all but the most recent `keep` go. */
    method PruneSessionScope(limit: Limit, keep: nat)
      modifies this`sessions
      ensures sessions == Pruned(old(sessions), limit, keep)
      ensures MostRecentKept(old(sessions), sessions, limit, keep)
    {
      PrunedMeans(sessions, limit, keep);
      sessions := sessions - Beyond(Stamps(sessions, Under(sessions, limit)), keep);
    }

    /** Leaves room for one more session under a limit. */
    method MakeRoom(limit: Limit)
      modifies this`sessions
      ensures sessions == Pruned(old(sessions), limit, Maximum(limit) - 1)
      ensures |Under(sessions, limit)| < Maximum(limit)
    {
      PrunedDwindles(sessions, limit, Maximum(limit) - 1);
      PruneSessionScope(limit, Maximum(limit) - 1);
    }

    /** Inserts a session, after clearing expired ones and making room under its limits. */
    method CreateWebSession(sessionId: Id, s: Session, now: Time)
      modifies this`sessions
      ensures sessions == SessionAdded(old(sessions), sessionId, s, now)
    {
      sessions := Unexpired(sessions, now);
      MakeRoom(PerAccount(s.accountId));
      if s.shareTokenId.Some? {
        MakeRoom(PerShareToken(s.shareTokenId.value));
      } else {
        MakeRoom(PerOwner(s.accountId));
      }
      sessions := sessions[sessionId := s];
    }

    /** The handler stores the generation of the session it is called with, so the new passkey can
        log in exactly when that is still the account's. */
    method RegisterPasskey(passkeyId: Id, accountId: Id, generation: nat)
      modifies this`passkeys
      ensures passkeys == old(passkeys)[passkeyId := PasskeyCredential(accountId, generation)]
      ensures accountId in accounts && !accounts[accountId].disabled ==>
                (PasskeyUsable(Rows(), passkeyId) <==> generation == accounts[accountId].generation)
    {
      passkeys := passkeys[passkeyId := PasskeyCredential(accountId, generation)];
    }
  }

  // ---- Session limits ----

  datatype Limit = PerAccount(accountId: Id) | PerOwner(accountId: Id) | PerShareToken(tokenId: Id)

  predicate Counts(limit: Limit, s: Session) {
    match limit
    case PerAccount(a) => s.accountId == a
    case PerOwner(a) => s.accountId == a && s.authMethod.Imt?
    case PerShareToken(t) => s.shareTokenId == Some(t)
  }

  function Maximum(limit: Limit): nat {
    match limit
    case PerAccount(_) => MAX_SESSIONS_PER_ACCOUNT
    case PerOwner(_) => MAX_OWNER_SESSIONS_PER_ACCOUNT
    case PerShareToken(_) => MAX_SESSIONS_PER_SHARE_TOKEN
  }

  function Under(sessions: map<Id, Session>, limit: Limit): set<Id> {
    set id | id in sessions && Counts(limit, sessions[id])
  }

  function StampOf(s: Session): Stamp {
    Stamp(s.lastSeenAt, s.createdAt)
  }

  function Stamps(sessions: map<Id, Session>, scope: set<Id>): Scope {
    map id | id in scope && id in sessions :: StampOf(sessions[id])
  }

  function Unexpired(sessions: map<Id, Session>, now: Time): map<Id, Session> {
    map id | id in sessions && sessions[id].expiresAt > now :: sessions[id]
  }

  function Pruned(sessions: map<Id, Session>, limit: Limit, keep: nat): map<Id, Session> {
    sessions - Beyond(Stamps(sessions, Under(sessions, limit)), keep)
  }

  /** The limit a session falls under besides its account's. */
  function SecondLimit(accountId: Id, shareTokenId: Option<Id>): Limit {
    if shareTokenId.Some? then PerShareToken(shareTokenId.value) else PerOwner(accountId)
  }

  /** The sessions left when a new one of this account and token is about to be inserted. */
  function RoomMade(sessions: map<Id, Session>, accountId: Id, shareTokenId: Option<Id>, now: Time): map<Id, Session> {
    var pruned := Pruned(Unexpired(sessions, now), PerAccount(accountId), MAX_SESSIONS_PER_ACCOUNT - 1);
    var second := SecondLimit(accountId, shareTokenId);
    Pruned(pruned, second, Maximum(second) - 1)
  }

  function SessionAdded(sessions: map<Id, Session>, sessionId: Id, s: Session, now: Time): map<Id, Session> {
    RoomMade(sessions, s.accountId, s.shareTokenId, now)[sessionId := s]
  }

  /** No account and no share token holds more sessions than its limit. */
  ghost predicate Capped(sessions: map<Id, Session>) {
    forall limit :: |Under(sessions, limit)| <= Maximum(limit)
  }

  /** Fewer sessions, each still of its account and method, and of its share token if of any. */
  ghost predicate Dwindled(before: map<Id, Session>, after: map<Id, Session>) {
    forall id :: id in after ==>
      && id in before && after[id].accountId == before[id].accountId && after[id].authMethod == before[id].authMethod
      && (after[id].shareTokenId.Some? ==> after[id].shareTokenId == before[id].shareTokenId)
  }

  lemma DwindledUnder(before: map<Id, Session>, after: map<Id, Session>, limit: Limit)
    requires Dwindled(before, after)
    ensures |Under(after, limit)| <= |Under(before, limit)|
  {
    forall id | id in Under(after, limit) ensures id in Under(before, limit) {
      assert Counts(limit, after[id]);
    }
    Contained(Under(after, limit), Under(before, limit));
  }

  lemma DwindledCapped(before: map<Id, Session>, after: map<Id, Session>)
    requires Capped(before) && Dwindled(before, after)
    ensures Capped(after)
  {
    forall limit ensures |Under(after, limit)| <= Maximum(limit) {
      DwindledUnder(before, after, limit);
    }
  }

  /** `after` is `before` with all but the `keep` most recent sessions under the limit gone: those not
      counted are untouched, as many as possible stay, and each that stays is ahead of each that goes,
      by last use, by creation, by id. */
  ghost predicate MostRecentKept(before: map<Id, Session>, after: map<Id, Session>, limit: Limit, keep: nat) {
    var all := Under(before, limit);
    && (forall id :: id in after ==> id in before && after[id] == before[id])
    && (forall id :: id in before && id !in all ==> id in after)
    && |all * after.Keys| == (if |all| < keep then |all| else keep)
    && forall x, y :: x in after && x in all && y in before && y !in after ==>
         Ahead(StampOf(before[x]), x, StampOf(before[y]), y)
  }

  /** Pruning does that. */
  lemma PrunedMeans(sessions: map<Id, Session>, limit: Limit, keep: nat)
    ensures MostRecentKept(sessions, Pruned(sessions, limit, keep), limit, keep)
  {
    PrunedCounts(sessions, limit, keep);
    forall x, y | x in Pruned(sessions, limit, keep) && x in Under(sessions, limit)
                  && y in sessions && y !in Pruned(sessions, limit, keep)
      ensures Ahead(StampOf(sessions[x]), x, StampOf(sessions[y]), y)
    {
      PrunedKeepsRecent(sessions, limit, keep, x, y);
    }
  }

  /** And nothing else does: the most recent sessions are determined. */
  lemma OnlyPruning(before: map<Id, Session>, after: map<Id, Session>, limit: Limit, keep: nat)
    requires MostRecentKept(before, after, limit, keep)
    ensures after == Pruned(before, limit, keep)
  {
    PrunedMeans(before, limit, keep);
    SelectionOf(before, after, limit, keep);
    SelectionOf(before, Pruned(before, limit, keep), limit, keep);
    var all, scope := Under(before, limit), Stamps(before, Under(before, limit));
    OneSelection(scope, all * after.Keys, all * Pruned(before, limit, keep).Keys);
    SameLeft(before, after, Pruned(before, limit, keep), all);
  }

  lemma SelectionOf(before: map<Id, Session>, after: map<Id, Session>, limit: Limit, keep: nat)
    requires MostRecentKept(before, after, limit, keep)
    ensures Selection(Stamps(before, Under(before, limit)), Under(before, limit) * after.Keys)
  {
  }

  lemma SameLeft(before: map<Id, Session>, a: map<Id, Session>, b: map<Id, Session>, all: set<Id>)
    requires forall id :: id in a ==> id in before && a[id] == before[id]
    requires forall id :: id in b ==> id in before && b[id] == before[id]
    requires forall id :: id in before && id !in all ==> id in a && id in b
    requires all * a.Keys == all * b.Keys
    ensures a == b
  {
    forall id ensures id in a <==> id in b {
      assert id in all * a.Keys <==> id in all * b.Keys;
    }
  }

  lemma ScopeOf(sessions: map<Id, Session>, all: set<Id>)
    requires all <= sessions.Keys
    ensures Stamps(sessions, all).Keys == all
  {
  }

  lemma PrunedKeys(sessions: map<Id, Session>, all: set<Id>, scope: Scope, keep: nat)
    requires all <= sessions.Keys && scope.Keys == all
    ensures var left := sessions - Beyond(scope, keep);
            left.Keys <= sessions.Keys && sessions.Keys - left.Keys <= all && all * left.Keys == Kept(scope, keep)
  {
    assert (sessions - Beyond(scope, keep)).Keys == sessions.Keys - Beyond(scope, keep);
  }

  lemma PrunedCounts(sessions: map<Id, Session>, limit: Limit, keep: nat)
    ensures var all, left := Under(sessions, limit), Pruned(sessions, limit, keep);
            && left.Keys <= sessions.Keys && sessions.Keys - left.Keys <= all
            && |all * left.Keys| == (if |all| < keep then |all| else keep)
  {
    var all, left := Under(sessions, limit), Pruned(sessions, limit, keep);
    ScopeOf(sessions, all);
    PrunedKeys(sessions, all, Stamps(sessions, all), keep);
    KeptCount(Stamps(sessions, all), keep);
  }

  /** A session that stays is ahead of every session that goes: by last use, by creation, by id. */
  lemma PrunedKeepsRecent(sessions: map<Id, Session>, limit: Limit, keep: nat, x: Id, y: Id)
    requires x in Pruned(sessions, limit, keep) && x in Under(sessions, limit)
    requires y in sessions && y !in Pruned(sessions, limit, keep)
    ensures Ahead(StampOf(sessions[x]), x, StampOf(sessions[y]), y)
  {
    var scope := Stamps(sessions, Under(sessions, limit));
    assert x in Kept(scope, keep) && y in Beyond(scope, keep);
    KeepsTheFirst(scope, keep);
    assert Before(scope, x, y);
  }

  lemma PrunedDwindles(sessions: map<Id, Session>, limit: Limit, keep: nat)
    ensures Dwindled(sessions, Pruned(sessions, limit, keep))
    ensures |Under(Pruned(sessions, limit, keep), limit)| <= keep
  {
    var left := Pruned(sessions, limit, keep);
    PrunedCounts(sessions, limit, keep);
    assert Under(left, limit) == Under(sessions, limit) * left.Keys;
  }

  /** Room for one more session of the account, and of its share token or else its IMT sessions. */
  lemma RoomIsMade(sessions: map<Id, Session>, accountId: Id, shareTokenId: Option<Id>, now: Time)
    ensures var room := RoomMade(sessions, accountId, shareTokenId, now);
            && Dwindled(sessions, room)
            && |Under(room, PerAccount(accountId))| < MAX_SESSIONS_PER_ACCOUNT
            && |Under(room, SecondLimit(accountId, shareTokenId))| < Maximum(SecondLimit(accountId, shareTokenId))
  {
    var live, first, second := Unexpired(sessions, now), PerAccount(accountId), SecondLimit(accountId, shareTokenId);
    var pruned := Pruned(live, first, MAX_SESSIONS_PER_ACCOUNT - 1);
    PrunedDwindles(live, first, MAX_SESSIONS_PER_ACCOUNT - 1);
    PrunedDwindles(pruned, second, Maximum(second) - 1);
    DwindledUnder(pruned, Pruned(pruned, second, Maximum(second) - 1), first);
  }

  /** The live sessions a limit counts. */
  ghost function LiveUnder(sessions: map<Id, Session>, limit: Limit, now: Time): set<Id> {
    set id | id in sessions && sessions[id].expiresAt > now && Counts(limit, sessions[id])
  }

  /** A session the insertion of `s` may push out for this limit: counted, with the limit full. */
  ghost predicate PushedOut(sessions: map<Id, Session>, limit: Limit, now: Time, id: Id) {
    id in LiveUnder(sessions, limit, now) && |LiveUnder(sessions, limit, now)| >= Maximum(limit)
  }

  lemma PruningPushesOut(sessions: map<Id, Session>, limit: Limit, keep: nat, id: Id)
    requires id in sessions && id !in Pruned(sessions, limit, keep)
    ensures id in Under(sessions, limit) && |Under(sessions, limit)| > keep
  {
    var all, left := Under(sessions, limit), Pruned(sessions, limit, keep);
    PrunedCounts(sessions, limit, keep);
    assert id in all && id !in all * left.Keys;
    Contained(all * left.Keys, all);
  }

  /** What creating a session does to the others: expired ones go, live ones stay as they are, except
      those pushed out by the account's limit or by the second one, each full without them. */
  lemma CreationLeaves(sessions: map<Id, Session>, sessionId: Id, s: Session, now: Time, id: Id)
    requires id != sessionId
    ensures var after := SessionAdded(sessions, sessionId, s, now);
            && sessionId in after && after[sessionId] == s
            && (id in after ==> id in sessions && after[id] == sessions[id] && sessions[id].expiresAt > now)
            && (id in sessions && sessions[id].expiresAt > now && id !in after ==>
                  || PushedOut(sessions, PerAccount(s.accountId), now, id)
                  || PushedOut(sessions,
                               if s.shareTokenId.Some? then PerShareToken(s.shareTokenId.value) else PerOwner(s.accountId),
                               now, id))
  {
    var live, first := Unexpired(sessions, now), PerAccount(s.accountId);
    var second := SecondLimit(s.accountId, s.shareTokenId);
    var pruned := Pruned(live, first, MAX_SESSIONS_PER_ACCOUNT - 1);
    LiveIsUnexpired(sessions, first, now);
    LiveIsUnexpired(sessions, second, now);
    if id in live && id !in pruned {
      PruningPushesOut(live, first, MAX_SESSIONS_PER_ACCOUNT - 1, id);
    } else if id in pruned && id !in Pruned(pruned, second, Maximum(second) - 1) {
      PruningPushesOut(pruned, second, Maximum(second) - 1, id);
      PrunedDwindles(live, first, MAX_SESSIONS_PER_ACCOUNT - 1);
      DwindledUnder(live, pruned, second);
    }
  }

  lemma LiveIsUnexpired(sessions: map<Id, Session>, limit: Limit, now: Time)
    ensures Under(Unexpired(sessions, now), limit) == LiveUnder(sessions, limit, now)
  {
  }

  /** What each limit counts, and how many. */
  lemma LimitsAre(limit: Limit, s: Session)
    ensures limit.PerAccount? ==> Maximum(limit) == 50 && (Counts(limit, s) <==> s.accountId == limit.accountId)
    ensures limit.PerOwner? ==>
              Maximum(limit) == 10 && (Counts(limit, s) <==> s.accountId == limit.accountId && s.authMethod == Imt)
    ensures limit.PerShareToken? ==>
              Maximum(limit) == 5 && (Counts(limit, s) <==> s.shareTokenId == Some(limit.tokenId))
  {
  }

  lemma UnderOneMore(sessions: map<Id, Session>, sessionId: Id, s: Session, limit: Limit)
    ensures |Under(sessions[sessionId := s], limit)| <= |Under(sessions, limit)| + (if Counts(limit, s) then 1 else 0)
  {
    var more := Under(sessions, limit) + (if Counts(limit, s) then {sessionId} else {});
    Contained(Under(sessions[sessionId := s], limit), more);
  }

  /** Creating a session keeps every limit. */
  lemma CreationCapped(sessions: map<Id, Session>, sessionId: Id, s: Session, now: Time)
    requires Capped(sessions)
    requires s.shareTokenId.Some? ==> s.authMethod.Token?
    ensures Capped(SessionAdded(sessions, sessionId, s, now))
  {
    var room := RoomMade(sessions, s.accountId, s.shareTokenId, now);
    RoomIsMade(sessions, s.accountId, s.shareTokenId, now);
    DwindledCapped(sessions, room);
    forall limit ensures |Under(room[sessionId := s], limit)| <= Maximum(limit) {
      UnderOneMore(room, sessionId, s, limit);
      assert Counts(limit, s) ==> limit == PerAccount(s.accountId) || limit == SecondLimit(s.accountId, s.shareTokenId);
    }
  }

  // ---- One deletion ----

  /** Everything but the generation holds for the session to be accepted. */
  predicate AcceptedBarGeneration(db: Db, sessionId: Id, now: Time) {
    && sessionId in db.sessions
    && var s := db.sessions[sessionId];
    && s.expiresAt > now && s.accountId in db.accounts && !db.accounts[s.accountId].disabled
    && (s.authMethod.Token? ==> s.shareTokenId.Some?)
    && (s.shareTokenId.Some? ==>
          && s.shareTokenId.value in db.tokens
          && var share := db.tokens[s.shareTokenId.value];
          && share.accountId == s.accountId && !share.revoked
          && (share.expiresAt.None? || share.expiresAt.value > now))
  }

  /** Share tokens belong to the account of the sessions opened with them. */
  predicate TokensOwned(db: Db) {
    forall id :: id in db.sessions && db.sessions[id].shareTokenId.Some? && db.sessions[id].shareTokenId.value in db.tokens ==>
      db.tokens[db.sessions[id].shareTokenId.value].accountId == db.sessions[id].accountId
  }

  /** What a deletion leaves accepted among the account's sessions: exactly the non-passkey ones
      that meet every condition but the generation, whether or not they met that one before. */
  lemma DeletionDecides(db: Db, accountId: Id, passkeyId: Id, sessionId: Id, now: Time)
    requires accountId in db.accounts && TokensOwned(db)
    requires sessionId in db.sessions && db.sessions[sessionId].accountId == accountId
    ensures AuthVerdict(PasskeyDeleted(db, accountId, passkeyId), sessionId, now).Authenticated?
       <==> !db.sessions[sessionId].authMethod.Passkey? && AcceptedBarGeneration(db, sessionId, now)
  {
  }

  /** Non-passkey sessions accepted before the deletion stay accepted, in every account. */
  lemma OthersStayAccepted(db: Db, accountId: Id, passkeyId: Id, sessionId: Id, now: Time)
    requires accountId in db.accounts && TokensOwned(db)
    requires AuthVerdict(db, sessionId, now).Authenticated?
    requires db.sessions[sessionId].authMethod.Passkey? ==> db.sessions[sessionId].accountId != accountId
    ensures AuthVerdict(PasskeyDeleted(db, accountId, passkeyId), sessionId, now).Authenticated?
  {
    if db.sessions[sessionId].accountId == accountId {
      DeletionDecides(db, accountId, passkeyId, sessionId, now);
    }
  }

  /** The account's other passkeys can still log in, the deleted one cannot. */
  lemma OtherPasskeysStayUsable(db: Db, accountId: Id, passkeyId: Id, other: Id)
    requires accountId in db.accounts && PasskeyUsable(db, other)
    ensures PasskeyUsable(PasskeyDeleted(db, accountId, passkeyId), other) <==> other != passkeyId
  {
  }

  /** Which passkeys can log in after a deletion: of the account's all but the deleted one, whether
      or not they could before, if the account is not disabled. */
  lemma DeletionDecidesPasskeys(db: Db, accountId: Id, passkeyId: Id, other: Id)
    requires accountId in db.accounts
    ensures PasskeyUsable(PasskeyDeleted(db, accountId, passkeyId), other)
       <==> && other != passkeyId && other in db.passkeys
            && if db.passkeys[other].accountId == accountId then !db.accounts[accountId].disabled
               else PasskeyUsable(db, other)
  {
  }

  predicate TokenLive(share: ShareToken, now: Time) {
    !share.revoked && (share.expiresAt.None? || share.expiresAt.value > now)
  }

  /** A share token can be used to log in. */
  predicate TokenUsable(db: Db, tokenId: Id, now: Time) {
    && tokenId in db.tokens
    && var share := db.tokens[tokenId];
    && TokenLive(share, now)
    && share.accountId in db.accounts && !db.accounts[share.accountId].disabled
    && share.generation == db.accounts[share.accountId].generation
  }

  /** Exactly what a share token needs to log in. */
  lemma TokenUsableMeans(db: Db, tokenId: Id, now: Time)
    ensures TokenUsable(db, tokenId, now)
       <==> && tokenId in db.tokens && db.tokens[tokenId].accountId in db.accounts
            && var share := db.tokens[tokenId];
            && var account := db.accounts[share.accountId];
            && account == Account(share.generation, false)
            && share == ShareToken(share.accountId, account.generation, false, share.expiresAt)
            && (share.expiresAt == None || now < share.expiresAt.value)
  {
  }

  /** Likewise for share tokens: of the account's all that are neither revoked nor expired, whatever
      generation they were of. */
  lemma DeletionDecidesTokens(db: Db, accountId: Id, passkeyId: Id, tokenId: Id, now: Time)
    requires accountId in db.accounts
    ensures TokenUsable(PasskeyDeleted(db, accountId, passkeyId), tokenId, now)
       <==> && tokenId in db.tokens
            && if db.tokens[tokenId].accountId == accountId
               then TokenLive(db.tokens[tokenId], now) && !db.accounts[accountId].disabled
               else TokenUsable(db, tokenId, now)
  {
  }

  // ---- Interleavings ----

  /** A login whose passkey was verified and whose session is not inserted yet. */
  datatype PendingLogin = PendingLogin(passkeyId: Id, accountId: Id, generation: nat)

  /** `deleted` collects the passkeys whose deletion committed. */
  datatype World = World(db: Db, pending: map<Id, PendingLogin>, deleted: set<Id>)

  datatype Step =
    | OpenAccount(accountId: Id)
    | VerifyLogin(loginId: Id, passkeyId: Id)
    | FinishLogin(loginId: Id, sessionId: Id, expiresAt: Time, now: Time)
    | LoginImt(sessionId: Id, accountId: Id, generation: nat, expiresAt: Time, now: Time)
    | LoginToken(sessionId: Id, tokenId: Id, generation: nat, expiresAt: Time, now: Time)
    | CreateToken(tokenId: Id, accountId: Id, generation: nat, tokenExpiresAt: Option<Time>)
    | RevokeToken(tokenId: Id)
    | DropToken(tokenId: Id)
    | CreatePasskey(passkeyId: Id, accountId: Id, generation: nat)
    | DeletePasskey(accountId: Id, passkeyId: Id)
    | ReadSession(sessionId: Id, now: Time, touchAfter: Time, rekeyed: bool)
    | DropSessions(ids: set<Id>)
    | Disable(accountId: Id)
    | Enable(accountId: Id)
    | Revoke(accountId: Id)

  function WithSessions(w: World, sessions: map<Id, Session>): World {
    w.(db := w.db.(sessions := sessions))
  }

  /** Values read from a session, token or account may be stale by the time they are written:
      a generation written is at most the current one. */
  predicate Stale(db: Db, accountId: Id, generation: nat) {
    accountId in db.accounts && generation <= db.accounts[accountId].generation
  }

  ghost predicate Steps(w: World, step: Step, w': World) {
    match step
    case OpenAccount(a) =>
      a !in w.db.accounts && w' == w.(db := w.db.(accounts := w.db.accounts[a := Account(1, false)]))
    case VerifyLogin(l, p) =>
      && PasskeyUsable(w.db, p)
      && w' == w.(pending := w.pending[l := PendingLogin(p, w.db.passkeys[p].accountId, w.db.passkeys[p].generation)])
    case FinishLogin(l, id, expires, now) =>
      && l in w.pending && id !in w.db.sessions
      && var s := Session(w.pending[l].accountId, None, w.pending[l].generation, Passkey, expires, now, now,
                          Some(w.pending[l].passkeyId));
      w' == WithSessions(w, SessionAdded(w.db.sessions, id, s, now)).(pending := w.pending - {l})
    case LoginImt(id, a, generation, expires, now) =>
      && Stale(w.db, a, generation) && id !in w.db.sessions
      && var s := Session(a, None, generation, Imt, expires, now, now, None);
      w' == WithSessions(w, SessionAdded(w.db.sessions, id, s, now))
    case LoginToken(id, t, generation, expires, now) =>
      && t in w.db.tokens && Stale(w.db, w.db.tokens[t].accountId, generation) && id !in w.db.sessions
      && var s := Session(w.db.tokens[t].accountId, Some(t), generation, Token, expires, now, now, None);
      w' == WithSessions(w, SessionAdded(w.db.sessions, id, s, now))
    case CreateToken(t, a, generation, expires) =>
      && t !in w.db.tokens && Stale(w.db, a, generation)
      && (forall id :: id in w.db.sessions ==> w.db.sessions[id].shareTokenId != Some(t))
      && w' == w.(db := w.db.(tokens := w.db.tokens[t := ShareToken(a, generation, false, expires)]))
    case RevokeToken(t) =>
      && t in w.db.tokens
      && w' == if w.db.tokens[t].revoked then w else w.(db := w.db.(
           tokens := w.db.tokens[t := w.db.tokens[t].(revoked := true)],
           sessions := map id | id in w.db.sessions && w.db.sessions[id].shareTokenId != Some(t) :: w.db.sessions[id]))
    case DropToken(t) =>
      w' == w.(db := w.db.(tokens := w.db.tokens - {t}, sessions := Unlinked(w.db.sessions, t)))
    case CreatePasskey(p, a, generation) =>
      && NeverUsed(w, p) && Stale(w.db, a, generation)
      && w' == w.(db := w.db.(passkeys := w.db.passkeys[p := PasskeyCredential(a, generation)]))
    case DeletePasskey(a, p) =>
      && a in w.db.accounts && p in w.db.passkeys && w.db.passkeys[p].accountId == a
      && w' == w.(db := PasskeyDeleted(w.db, a, p), deleted := w.deleted + {p})
    case ReadSession(id, now, touchAfter, rekeyed) =>
      w' == WithSessions(w, SessionsRead(w.db, id, now, touchAfter, rekeyed))
    case DropSessions(ids) => w' == WithSessions(w, w.db.sessions - ids)
    case Disable(a) => a in w.db.accounts && w' == w.(db := AccountDisabled(w.db, a))
    case Enable(a) => a in w.db.accounts && w' == w.(db := AccountEnabled(w.db, a))
    case Revoke(a) =>
      a in w.db.accounts && w' == w.(db := AccessRevoked(w.db, a), deleted := w.deleted + PasskeysOf(w.db, a))
  }

  /** A deleted token leaves its sessions without one. */
  function Unlinked(sessions: map<Id, Session>, tokenId: Id): map<Id, Session> {
    map id | id in sessions ::
      if sessions[id].shareTokenId == Some(tokenId) then sessions[id].(shareTokenId := None) else sessions[id]
  }

  /** A login with a usable passkey that nothing comes between opens a session of it that is accepted. */
  lemma PasskeyLoginWorks(w: World, login: Step, middle: World, finish: Step, w': World)
    requires login.VerifyLogin? && Steps(w, login, middle)
    requires finish.FinishLogin? && Steps(middle, finish, w')
    requires login.loginId == finish.loginId && finish.now < finish.expiresAt
    ensures AuthVerdict(w'.db, finish.sessionId, finish.now) == Authenticated
    ensures w'.db.sessions[finish.sessionId].openedWith == Some(login.passkeyId)
    ensures finish.loginId !in w'.pending
  {
  }

  /** The other logins open a session that is accepted exactly if the generation read is still current
      and the account, and the token, may log in. */
  lemma LoginWorks(w: World, login: Step, w': World)
    requires (login.LoginImt? || login.LoginToken?) && Steps(w, login, w') && login.now < login.expiresAt
    ensures login.LoginImt? ==>
              (AuthVerdict(w'.db, login.sessionId, login.now) == Authenticated
               <==> w.db.accounts[login.accountId] == Account(login.generation, false))
    ensures login.LoginToken? ==>
              (AuthVerdict(w'.db, login.sessionId, login.now) == Authenticated
               <==> && w.db.accounts[w.db.tokens[login.tokenId].accountId] == Account(login.generation, false)
                    && TokenUsable(w.db, login.tokenId, login.now))
  {
  }

  /** Every administrative step has its effect on the tables, and nothing else changes; passkeys that a
      revocation deletes are remembered as deleted. */
  lemma AdministrationWorks(w: World, step: Step, w': World)
    requires (step.Disable? || step.Enable? || step.Revoke?) && Steps(w, step, w')
    ensures OthersUntouched(w.db, step.accountId, w'.db) && w'.pending == w.pending
    ensures step.Enable? ==> !w'.db.accounts[step.accountId].disabled && w'.db.sessions == w.db.sessions
    ensures !step.Enable? ==> LoggedOut(w.db, step.accountId, w'.db)
    ensures step.Disable? ==> w'.db.accounts[step.accountId].disabled
    ensures step.Revoke? ==> forall p :: p in w.db.passkeys && w.db.passkeys[p].accountId == step.accountId ==>
                               p !in w'.db.passkeys && p in w'.deleted
  {
  }

  /** A share token that is revoked can log in no more, and no session of it is accepted; the first
      revocation deletes them, and others stay. */
  lemma RevokedTokenMeans(w: World, step: Step, w': World, id: Id, now: Time)
    requires step.RevokeToken? && Steps(w, step, w')
    ensures !TokenUsable(w'.db, step.tokenId, now)
    ensures id in w'.db.sessions && w'.db.sessions[id].shareTokenId == Some(step.tokenId) ==>
              AuthVerdict(w'.db, id, now) != Authenticated
    ensures !w.db.tokens[step.tokenId].revoked ==>
              (id in w'.db.sessions <==> id in w.db.sessions && w.db.sessions[id].shareTokenId != Some(step.tokenId))
    ensures w.db.tokens[step.tokenId].revoked ==> w' == w
    ensures id in w'.db.sessions ==> w'.db.sessions[id] == w.db.sessions[id]
  {
  }

  /** Sessions of a token that is dropped lose it and are refused from then on; others stay as they are. */
  lemma DroppedTokenMeans(w: World, step: Step, w': World, id: Id, now: Time)
    requires Fenced(w) && step.DropToken? && Steps(w, step, w')
    ensures step.tokenId !in w'.db.tokens
    ensures id in w'.db.sessions <==> id in w.db.sessions
    ensures id in w.db.sessions ==>
              var s := w.db.sessions[id];
              if s.shareTokenId == Some(step.tokenId)
              then w'.db.sessions[id] == s.(shareTokenId := None) && AuthVerdict(w'.db, id, now) != Authenticated
              else w'.db.sessions[id] == s
  {
    if id in w.db.sessions {
      assert SessionFenced(w, w.db.sessions[id]);
    }
  }

  /** Passkey ids are freshly drawn. */
  ghost predicate NeverUsed(w: World, p: Id) {
    && p !in w.db.passkeys && p !in w.deleted
    && (forall l :: l in w.pending ==> w.pending[l].passkeyId != p)
    && (forall id :: id in w.db.sessions ==> w.db.sessions[id].openedWith != Some(p))
  }

  /** A generation held for an account is at most the account's, and less if its passkey is gone. */
  predicate Behind(w: World, accountId: Id, generation: nat, passkeyId: Id) {
    && accountId in w.db.accounts && generation <= w.db.accounts[accountId].generation
    && (passkeyId in w.deleted ==> generation < w.db.accounts[accountId].generation)
    && (passkeyId in w.db.passkeys ==> w.db.passkeys[passkeyId].accountId == accountId && passkeyId !in w.deleted)
    && (passkeyId in w.db.passkeys || passkeyId in w.deleted)
  }

  ghost predicate SessionFenced(w: World, s: Session) {
    && (s.authMethod.Passkey? <==> s.openedWith.Some?)
    && (s.authMethod.Passkey? ==> Behind(w, s.accountId, s.generation, s.openedWith.value))
    && (s.shareTokenId.Some? ==> s.authMethod.Token?)
    && (s.shareTokenId.Some? && s.shareTokenId.value in w.db.tokens ==>
          w.db.tokens[s.shareTokenId.value].accountId == s.accountId)
  }

  ghost predicate Fenced(w: World) {
    && (forall p :: p in w.db.passkeys ==>
          && p !in w.deleted && w.db.passkeys[p].accountId in w.db.accounts
          && w.db.passkeys[p].generation <= w.db.accounts[w.db.passkeys[p].accountId].generation)
    && (forall l :: l in w.pending ==>
          Behind(w, w.pending[l].accountId, w.pending[l].generation, w.pending[l].passkeyId))
    && (forall id :: id in w.db.sessions ==> SessionFenced(w, w.db.sessions[id]))
  }

  // Each kind of step keeps the fence.

  lemma SessionsReplaced(w: World, sessions: map<Id, Session>, w': World)
    requires Fenced(w) && w' == WithSessions(w, sessions)
    requires forall id :: id in sessions ==>
               (id in w.db.sessions && sessions[id] == w.db.sessions[id]) || SessionFenced(w, sessions[id])
    ensures Fenced(w')
  {
    forall id | id in sessions ensures SessionFenced(w', sessions[id]) {
      assert SessionFenced(w, sessions[id]);
    }
  }

  lemma FinishFenced(w: World, step: Step, w': World)
    requires Fenced(w) && Steps(w, step, w') && step.FinishLogin?
    ensures Fenced(w')
  {
    var l := w.pending[step.loginId];
    assert Behind(w, l.accountId, l.generation, l.passkeyId);
    SessionsReplaced(w, w'.db.sessions, WithSessions(w, w'.db.sessions));
    forall id | id in w'.db.sessions ensures SessionFenced(w', w'.db.sessions[id]) {
      assert SessionFenced(WithSessions(w, w'.db.sessions), w'.db.sessions[id]);
    }
  }

  lemma VerifyFenced(w: World, step: Step, w': World)
    requires Fenced(w) && Steps(w, step, w') && step.VerifyLogin?
    ensures Fenced(w')
  {
    forall id | id in w'.db.sessions ensures SessionFenced(w', w'.db.sessions[id]) {
      assert SessionFenced(w, w.db.sessions[id]);
    }
  }

  lemma CreatePasskeyFenced(w: World, step: Step, w': World)
    requires Fenced(w) && Steps(w, step, w') && step.CreatePasskey?
    ensures Fenced(w')
  {
    forall l | l in w'.pending
      ensures Behind(w', w'.pending[l].accountId, w'.pending[l].generation, w'.pending[l].passkeyId)
    {
      assert Behind(w, w.pending[l].accountId, w.pending[l].generation, w.pending[l].passkeyId);
    }
    forall id | id in w'.db.sessions ensures SessionFenced(w', w'.db.sessions[id]) {
      assert SessionFenced(w, w.db.sessions[id]);
    }
  }

  /** Behind is kept when the account moves on, or nothing about it changes. */
  lemma StaysBehind(w: World, w': World, a: Id, g: nat, p: Id)
    requires Behind(w, a, g, p)
    requires a in w'.db.accounts && w.db.accounts[a].generation <= w'.db.accounts[a].generation
    requires p in w'.deleted && p !in w.deleted ==> w.db.accounts[a].generation < w'.db.accounts[a].generation
    requires w.deleted <= w'.deleted
    requires p in w'.db.passkeys ==>
               && p in w.db.passkeys && w'.db.passkeys[p].accountId == w.db.passkeys[p].accountId
               && p !in w'.deleted
    requires p in w.db.passkeys ==> p in w'.db.passkeys || p in w'.deleted
    ensures Behind(w', a, g, p)
  {
  }

  lemma DeleteFenced(w: World, step: Step, w': World)
    requires Fenced(w) && Steps(w, step, w') && step.DeletePasskey?
    ensures Fenced(w')
  {
    forall l | l in w'.pending
      ensures Behind(w', w'.pending[l].accountId, w'.pending[l].generation, w'.pending[l].passkeyId)
    {
      var q := w.pending[l];
      assert Behind(w, q.accountId, q.generation, q.passkeyId);
      StaysBehind(w, w', q.accountId, q.generation, q.passkeyId);
    }
    forall id | id in w'.db.sessions ensures SessionFenced(w', w'.db.sessions[id]) {
      var s := w.db.sessions[id];
      assert SessionFenced(w, s);
      if s.authMethod.Passkey? {
        StaysBehind(w, w', s.accountId, s.generation, s.openedWith.value);
      }
    }
  }

  lemma AdminFenced(w: World, step: Step, w': World)
    requires Fenced(w) && Steps(w, step, w') && (step.Disable? || step.Enable? || step.Revoke?)
    ensures Fenced(w')
  {
    forall l | l in w'.pending
      ensures Behind(w', w'.pending[l].accountId, w'.pending[l].generation, w'.pending[l].passkeyId)
    {
      var q := w.pending[l];
      assert Behind(w, q.accountId, q.generation, q.passkeyId);
      StaysBehind(w, w', q.accountId, q.generation, q.passkeyId);
    }
    forall id | id in w'.db.sessions ensures SessionFenced(w', w'.db.sessions[id]) {
      var s := w.db.sessions[id];
      assert SessionFenced(w, s);
      if s.authMethod.Passkey? {
        StaysBehind(w, w', s.accountId, s.generation, s.openedWith.value);
      }
    }
  }

  lemma TokenFenced(w: World, step: Step, w': World)
    requires Fenced(w) && Steps(w, step, w') && (step.CreateToken? || step.RevokeToken? || step.DropToken? || step.OpenAccount?)
    ensures Fenced(w')
  {
    forall l | l in w'.pending
      ensures Behind(w', w'.pending[l].accountId, w'.pending[l].generation, w'.pending[l].passkeyId)
    {
      assert Behind(w, w.pending[l].accountId, w.pending[l].generation, w.pending[l].passkeyId);
    }
    forall id | id in w'.db.sessions ensures SessionFenced(w', w'.db.sessions[id]) {
      assert SessionFenced(w, w.db.sessions[id]);
    }
  }

  lemma StepFenced(w: World, step: Step, w': World)
    requires Fenced(w) && Steps(w, step, w')
    ensures Fenced(w')
  {
    match step
    case OpenAccount(_) => TokenFenced(w, step, w');
    case VerifyLogin(_, _) => VerifyFenced(w, step, w');
    case FinishLogin(_, _, _, _) => FinishFenced(w, step, w');
    case LoginImt(_, _, _, _, _) => SessionsReplaced(w, w'.db.sessions, w');
    case LoginToken(_, _, _, _, _) => SessionsReplaced(w, w'.db.sessions, w');
    case CreateToken(_, _, _, _) => TokenFenced(w, step, w');
    case RevokeToken(_) => TokenFenced(w, step, w');
    case DropToken(_) => TokenFenced(w, step, w');
    case CreatePasskey(_, _, _) => CreatePasskeyFenced(w, step, w');
    case DeletePasskey(_, _) => DeleteFenced(w, step, w');
    case ReadSession(_, _, _, _) => SessionsReplaced(w, w'.db.sessions, w');
    case DropSessions(_) => SessionsReplaced(w, w'.db.sessions, w');
    case Disable(_) => AdminFenced(w, step, w');
    case Enable(_) => AdminFenced(w, step, w');
    case Revoke(_) => AdminFenced(w, step, w');
  }

  ghost predicate Run(ws: seq<World>, steps: seq<Step>) {
    && |ws| == |steps| + 1
    && ws[0] == World(Db(map[], map[], map[], map[]), map[], {})
    && forall i :: 0 <= i < |steps| ==> Steps(ws[i], steps[i], ws[i + 1])
  }

  lemma {:induction false} RunFenced(ws: seq<World>, steps: seq<Step>, i: nat)
    requires Run(ws, steps) && i < |ws|
    ensures Fenced(ws[i])
  {
    if i > 0 {
      RunFenced(ws, steps, i - 1);
      var j := i - 1;
      assert Steps(ws[j], steps[j], ws[j + 1]);
      StepFenced(ws[j], steps[j], ws[j + 1]);
    }
  }

  lemma StepCapped(w: World, step: Step, w': World)
    requires Capped(w.db.sessions) && Steps(w, step, w')
    ensures Capped(w'.db.sessions)
  {
    match step
    case FinishLogin(_, id, _, now) => CreationCapped(w.db.sessions, id, w'.db.sessions[id], now);
    case LoginImt(id, _, _, _, now) => CreationCapped(w.db.sessions, id, w'.db.sessions[id], now);
    case LoginToken(id, _, _, _, now) => CreationCapped(w.db.sessions, id, w'.db.sessions[id], now);
    case _ => DwindledCapped(w.db.sessions, w'.db.sessions);
  }

  /** In every reachable state every session limit holds. */
  lemma {:induction false} LimitsHold(ws: seq<World>, steps: seq<Step>, i: nat)
    requires Run(ws, steps) && i < |ws|
    ensures Capped(ws[i].db.sessions)
  {
    if i == 0 {
      forall limit ensures |Under(ws[0].db.sessions, limit)| <= Maximum(limit) {
        assert Under(ws[0].db.sessions, limit) == {};
      }
    } else {
      LimitsHold(ws, steps, i - 1);
      StepCapped(ws[i - 1], steps[i - 1], ws[i]);
    }
  }

  lemma StepKeepsDeleted(w: World, step: Step, w': World)
    requires Steps(w, step, w')
    ensures w.deleted <= w'.deleted
  {
  }

  lemma {:induction false} DeletedForGood(ws: seq<World>, steps: seq<Step>, i: nat, j: nat)
    requires Run(ws, steps) && i <= j < |ws|
    ensures ws[i].deleted <= ws[j].deleted
  {
    if i < j {
      DeletedForGood(ws, steps, i, j - 1);
      StepKeepsDeleted(ws[j - 1], steps[j - 1], ws[j]);
    }
  }

  /** In every interleaving, once a passkey's deletion has committed no session opened with it is
      accepted by either check, at any time, however late the session was inserted. */
  lemma DeletedPasskeyNeverAccepted(
    ws: seq<World>, steps: seq<Step>, i: nat, j: nat, p: Id, sessionId: Id, now: Time)
    requires Run(ws, steps) && i <= j < |ws| && p in ws[i].deleted
    requires sessionId in ws[j].db.sessions && ws[j].db.sessions[sessionId].openedWith == Some(p)
    ensures !AuthVerdict(ws[j].db, sessionId, now).Authenticated?
    ensures !SessionIsActive(ws[j].db, sessionId, ws[j].db.sessions[sessionId].accountId, now)
  {
    RunFenced(ws, steps, j);
    DeletedForGood(ws, steps, i, j);
    var s := ws[j].db.sessions[sessionId];
    assert SessionFenced(ws[j], s);
  }

  /** In every reachable state the two checks give the same answer for every session, and
      deletions keep every non-passkey session that was accepted. */
  lemma ReachableChecksAgree(ws: seq<World>, steps: seq<Step>, i: nat, sessionId: Id, now: Time)
    requires Run(ws, steps) && i < |ws| && sessionId in ws[i].db.sessions
    ensures AuthVerdict(ws[i].db, sessionId, now).Authenticated?
         == SessionIsActive(ws[i].db, sessionId, ws[i].db.sessions[sessionId].accountId, now)
    ensures TokensOwned(ws[i].db)
    ensures i + 1 < |ws| && steps[i].DeletePasskey? && !ws[i].db.sessions[sessionId].authMethod.Passkey?
            && AuthVerdict(ws[i].db, sessionId, now).Authenticated? ==>
              AuthVerdict(ws[i + 1].db, sessionId, now).Authenticated?
  {
    RunFenced(ws, steps, i);
    forall id | id in ws[i].db.sessions ensures SessionFenced(ws[i], ws[i].db.sessions[id]) { }
    ChecksAgreeOnTokens(ws[i].db, sessionId, now);
    if i + 1 < |ws| && steps[i].DeletePasskey? && !ws[i].db.sessions[sessionId].authMethod.Passkey?
       && AuthVerdict(ws[i].db, sessionId, now).Authenticated? {
      assert Steps(ws[i], steps[i], ws[i + 1]);
      OthersStayAccepted(ws[i].db, steps[i].accountId, steps[i].passkeyId, sessionId, now);
    }
  }

  // ---- A fenced-off session let in again ----

  /** A token login that reads the token's generation before one deletion commits and inserts its
      session after it, and then another deletion of the same account. */
  function Revival(a: Id, t: Id, p: Id, q: Id, s: Id): seq<Step> {
    [OpenAccount(a), CreateToken(t, a, 1, None), CreatePasskey(p, a, 1), CreatePasskey(q, a, 1),
     DeletePasskey(a, p), LoginToken(s, t, 1, 100, 0), DeletePasskey(a, q)]
  }

  function AfterDeletion(w: World, accountId: Id, passkeyId: Id): World
    requires accountId in w.db.accounts
  {
    w.(db := PasskeyDeleted(w.db, accountId, passkeyId), deleted := w.deleted + {passkeyId})
  }

  /** The account, its token and its two passkeys. */
  function BeforeRevival(a: Id, t: Id, passkeys: map<Id, PasskeyCredential>): World {
    World(Db(map[a := Account(1, false)], map[], map[t := ShareToken(a, 1, false, None)], passkeys), map[], {})
  }

  lemma RevivalStarts(a: Id, t: Id, p: Id, q: Id, s: Id) returns (ws: seq<World>)
    requires p != q
    ensures |ws| == 5 && ws[0] == World(Db(map[], map[], map[], map[]), map[], {})
    ensures forall i :: 0 <= i < 4 ==> Steps(ws[i], Revival(a, t, p, q, s)[i], ws[i + 1])
    ensures ws[4] == BeforeRevival(a, t, map[p := PasskeyCredential(a, 1), q := PasskeyCredential(a, 1)])
  {
    var w0 := World(Db(map[], map[], map[], map[]), map[], {});
    var w1 := w0.(db := w0.db.(accounts := map[a := Account(1, false)]));
    var w2 := BeforeRevival(a, t, map[]);
    var w3 := BeforeRevival(a, t, map[p := PasskeyCredential(a, 1)]);
    var w4 := BeforeRevival(a, t, map[p := PasskeyCredential(a, 1), q := PasskeyCredential(a, 1)]);
    ws := [w0, w1, w2, w3, w4];
  }

  lemma DeletionIsStep(w: World, step: Step, w': World)
    requires step.DeletePasskey? && step.accountId in w.db.accounts && step.passkeyId in w.db.passkeys
    requires w.db.passkeys[step.passkeyId].accountId == step.accountId
    requires w' == AfterDeletion(w, step.accountId, step.passkeyId)
    ensures Steps(w, step, w')
  {
  }

  function StaleSession(a: Id, t: Id): Session {
    Session(a, Some(t), 1, Token, 100, 0, 0, None)
  }

  lemma LateLoginIsStep(w: World, a: Id, t: Id, s: Id, step: Step, w': World)
    requires a in w.db.accounts && w.db.accounts[a].generation >= 1
    requires t in w.db.tokens && w.db.tokens[t].accountId == a && s !in w.db.sessions
    requires step == LoginToken(s, t, 1, 100, 0)
    requires w' == WithSessions(w, SessionAdded(w.db.sessions, s, StaleSession(a, t), 0))
    ensures Steps(w, step, w')
  {
  }

  lemma LateLoginRefused(w: World, a: Id, t: Id, s: Id)
    requires a in w.db.accounts && w.db.accounts[a] == Account(2, false)
    requires t in w.db.tokens && w.db.tokens[t] == ShareToken(a, 2, false, None)
    requires w.db.sessions == map[s := StaleSession(a, t)]
    ensures AuthVerdict(w.db, s, 0) == Revoked && AcceptedBarGeneration(w.db, s, 0) && TokensOwned(w.db)
  {
  }

  lemma FirstDeletion(a: Id, t: Id, p: Id, q: Id, w: World, w': World)
    requires p != q && w == BeforeRevival(a, t, map[p := PasskeyCredential(a, 1), q := PasskeyCredential(a, 1)])
    requires w' == AfterDeletion(w, a, p)
    ensures a in w'.db.accounts && w'.db.accounts[a] == Account(2, false) && w'.db.sessions == map[]
    ensures t in w'.db.tokens && w'.db.tokens[t] == ShareToken(a, 2, false, None)
    ensures q in w'.db.passkeys && w'.db.passkeys[q].accountId == a
  {
  }

  lemma ThreeMore(start: seq<World>, w5: World, w6: World, w7: World, steps: seq<Step>)
    requires |start| == 5 && |steps| == 7 && start[0] == World(Db(map[], map[], map[], map[]), map[], {})
    requires forall i :: 0 <= i < 4 ==> Steps(start[i], steps[i], start[i + 1])
    requires Steps(start[4], steps[4], w5) && Steps(w5, steps[5], w6) && Steps(w6, steps[6], w7)
    ensures Run(start + [w5, w6, w7], steps)
  {
  }

  /** Such a session is refused after the first deletion and accepted after the second. */
  lemma StaleSessionRevived(a: Id, t: Id, p: Id, q: Id, s: Id) returns (ws: seq<World>)
    requires p != q
    ensures Run(ws, Revival(a, t, p, q, s)) && |ws| == 8
    ensures AuthVerdict(ws[6].db, s, 0) == Revoked && AuthVerdict(ws[7].db, s, 0) == Authenticated
  {
    var steps := Revival(a, t, p, q, s);
    var start := RevivalStarts(a, t, p, q, s);
    var w5 := AfterDeletion(start[4], a, p);
    DeletionIsStep(start[4], steps[4], w5);
    FirstDeletion(a, t, p, q, start[4], w5);
    var w6 := WithSessions(w5, SessionAdded(w5.db.sessions, s, StaleSession(a, t), 0));
    LateLoginIsStep(w5, a, t, s, steps[5], w6);
    assert RoomMade(w5.db.sessions, a, Some(t), 0) == map[];
    LateLoginRefused(w6, a, t, s);
    var w7 := AfterDeletion(w6, a, q);
    DeletionIsStep(w6, steps[6], w7);
    DeletionDecides(w6.db, a, q, s, 0);
    ThreeMore(start, w5, w6, w7, steps);
    ws := start + [w5, w6, w7];
  }
}
