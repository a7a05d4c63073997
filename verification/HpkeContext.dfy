/** The length-prefixed HPKE info string that binds an envelope to its context. */
module HpkeContext {
  import opened Wrappers
  import opened Utf8

  const INFO_SCHEMA_VERSION := 1
  const MAX_INFO_BYTES := 1024
  const MAX_LOGIN := 160
  const MAX_POSITIVE := 0x7FFF_FFFF_FFFF_FFFF

  /** "IMTegrale/internal-hpke" */
  const APPLICATION_DOMAIN: Bytes := [
    0x49, 0x4D, 0x54, 0x65, 0x67, 0x72, 0x61, 0x6C, 0x65, 0x2F, 0x69, 0x6E,
    0x74, 0x65, 0x72, 0x6E, 0x61, 0x6C, 0x2D, 0x68, 0x70, 0x6B, 0x65]

  datatype EnvelopePurpose = ImtSyncCredential | PassServiceSession

  datatype PlaintextProfile = ImtPasswordFrameV1 | PassServiceSessionV1

  function PurposeCode(p: EnvelopePurpose): Byte {
    if p.ImtSyncCredential? then 1 else 2
  }

  function ProfileCode(p: PlaintextProfile): Byte {
    if p.ImtPasswordFrameV1? then 1 else 2
  }

  datatype ContextError = ContextValidationError

  // ---- Contexts ----

  datatype Context =
    | SyncCredentialContext(accountId: Text, imtLogin: Text, credentialGeneration: int, consentVersion: int)
    | ServiceSessionContext(accountId: Text, imtLogin: Text, serviceSessionId: Text)

  predicate HexDigit(c: CodePoint) {
    0x30 <= c <= 0x39 || 0x61 <= c <= 0x66
  }

  /** The lower-case hyphenated form of a UUID other than the nil one. */
  predicate CanonicalUuid(t: Text) {
    && |t| == 36
    && (forall i :: 0 <= i < 36 ==> if i == 8 || i == 13 || i == 18 || i == 23 then t[i] == 0x2D else HexDigit(t[i]))
    && exists i :: 0 <= i < 36 && t[i] != 0x2D && t[i] != 0x30
  }

  /** A login after trimming and lower-casing; surrogates are control characters and refused. */
  predicate ValidLogin(t: Text) {
    && 2 <= |t| <= MAX_LOGIN
    && (forall c :: c in t ==> Encodable(c))
    && |EncodeAll(t)| <= MAX_LOGIN
  }

  predicate Positive(n: int) {
    0 < n <= MAX_POSITIVE
  }

  /** The shortest and the longest login, and the least and the greatest generation or version. */
  lemma {:induction false} ContextBounds(n: nat)
    ensures ValidLogin(Letters(n)) <==> 1 < n < 161
    ensures forall k: int :: Positive(k) <==> k >= 1 && k < Pow256(8) / 2
  {
    LettersLength(n);
    PowersOf256();
  }

  /** What the two constructors guarantee of a context. */
  predicate ValidContext(c: Context) {
    && CanonicalUuid(c.accountId) && ValidLogin(c.imtLogin)
    && match c
       case SyncCredentialContext(_, _, generation, consent) => Positive(generation) && Positive(consent)
       case ServiceSessionContext(_, _, session) => CanonicalUuid(session)
  }

  // ---- Packing ----

  function Pow256(n: nat): nat {
    if n == 0 then 1 else 256 * Pow256(n - 1)
  }

  /** Big-endian, `width` bytes. */
  function Pack(n: nat, width: nat): (b: Bytes)
    ensures |b| == width
  {
    if width == 0 then [] else Pack(n / 256, width - 1) + [n % 256]
  }

  function Unpack(b: Bytes): nat {
    if b == [] then 0 else 256 * Unpack(b[..|b| - 1]) + b[|b| - 1]
  }

  /** The first byte weighs most. */
  lemma {:induction false} LeadingByte(x: Byte, b: Bytes)
    ensures Unpack([x] + b) == x * Pow256(|b|) + Unpack(b)
  {
    if b == [] {
      assert [x] + b == [x] && [x][..0] == [];
    } else {
      var front := b[..|b| - 1];
      LeadingByte(x, front);
      assert ([x] + b)[..|b|] == [x] + front;
      assert 256 * (x * Pow256(|front|)) == x * Pow256(|b|);
    }
  }

  /** Lengths of two and four bytes, byte by byte. */
  lemma PackedEnds(n: nat)
    ensures Pack(n, 2) == [n / 256 % 256, n % 256]
    ensures Pack(n, 4) == [n / 0x100_0000 % 256, n / 0x1_0000 % 256, n / 0x100 % 256, n % 256]
  {
    assert n / 256 / 256 == n / 0x1_0000 && n / 256 / 256 / 256 == n / 0x100_0000;
    assert Pack(n / 256 / 256, 2) == [n / 0x100_0000 % 256, n / 0x1_0000 % 256];
    assert Pack(n / 256, 3) == Pack(n / 256 / 256, 2) + [n / 0x100 % 256];
  }

  lemma {:induction false} UnpackPacked(n: nat, width: nat)
    requires n < Pow256(width)
    ensures Unpack(Pack(n, width)) == n
  {
    if width > 0 {
      UnpackPacked(n / 256, width - 1);
      assert Pack(n, width)[..width - 1] == Pack(n / 256, width - 1);
    }
  }

  lemma {:induction false} PackUnpacked(b: Bytes)
    ensures Unpack(b) < Pow256(|b|) && Pack(Unpack(b), |b|) == b
  {
    if b != [] {
      var front, last := b[..|b| - 1], b[|b| - 1];
      PackUnpacked(front);
      assert b == front + [last];
      assert (256 * Unpack(front) + last) / 256 == Unpack(front);
    }
  }

  lemma PackInjective(n: nat, m: nat, width: nat)
    requires n < Pow256(width) && m < Pow256(width) && Pack(n, width) == Pack(m, width)
    ensures n == m
  {
    UnpackPacked(n, width);
    UnpackPacked(m, width);
  }

  lemma PowersOf256()
    ensures Pow256(1) == 0x100 && Pow256(2) == 0x1_0000 && Pow256(4) == 0x1_0000_0000
    ensures Pow256(8) == 0x1_0000_0000_0000_0000
  {
    assert Pow256(0) == 1 && Pow256(3) == 256 * Pow256(2);
    assert Pow256(5) == 256 * Pow256(4) && Pow256(6) == 256 * Pow256(5) && Pow256(7) == 256 * Pow256(6);
  }

  function Ascii(t: Text): Bytes
    requires forall i :: 0 <= i < |t| ==> t[i] < 0x80
  {
    seq(|t|, i requires 0 <= i < |t| => t[i])
  }

  // ---- Fields ----

  predicate FieldFits(value: Bytes) {
    1 <= |value| <= 0xFFFF
  }

  function Field(id: Byte, value: Bytes): Bytes {
    [id] + Pack(|value|, 2) + value
  }

  function ContextKind(c: Context): Byte {
    if c.SyncCredentialContext? then 1 else 2
  }

  function FieldCount(c: Context): Byte {
    if c.SyncCredentialContext? then 4 else 3
  }

  function LastFields(c: Context): Bytes
    requires ValidContext(c)
  {
    match c
    case SyncCredentialContext(_, _, generation, consent) =>
      Field(3, Pack(generation, 8)) + Field(4, Pack(consent, 8))
    case ServiceSessionContext(_, _, session) => Field(5, Ascii(session))
  }

  function ContextFields(c: Context): Bytes
    requires ValidContext(c)
  {
    Field(1, Ascii(c.accountId)) + (Field(2, EncodeAll(c.imtLogin)) + LastFields(c))
  }

  /** The parts of a field: its id, the length of its value in two bytes and the value. */
  lemma FieldIs(id: Byte, value: Bytes)
    ensures FieldFits(value) <==> 0 < |value| < 65536
    ensures |Field(id, value)| == 3 + |value| && Field(id, value)[0] == id && Field(id, value)[3..] == value
    ensures Field(id, value)[1] == |value| / 256 % 256 && Field(id, value)[2] == |value| % 256
  {
    PackedEnds(|value|);
  }

  /** The fields of each kind of context, with the numbers they are known by. */
  lemma FieldsAre(c: Context)
    requires ValidContext(c)
    ensures match c
            case SyncCredentialContext(account, login, generation, consent) =>
              && ContextKind(c) == 1 && FieldCount(c) == 4
              && ContextFields(c) == Field(1, Ascii(account)) + Field(2, EncodeAll(login))
                                     + Field(3, Pack(generation, 8)) + Field(4, Pack(consent, 8))
            case ServiceSessionContext(account, login, session) =>
              && ContextKind(c) == 2 && FieldCount(c) == 3
              && ContextFields(c) == Field(1, Ascii(account)) + Field(2, EncodeAll(login)) + Field(5, Ascii(session))
  {
  }

  /** Every field of a valid context meets the bounds each field is checked for. */
  lemma FieldsFit(c: Context)
    requires ValidContext(c)
    ensures FieldFits(Ascii(c.accountId)) && FieldFits(EncodeAll(c.imtLogin))
    ensures c.SyncCredentialContext? ==> FieldFits(Pack(c.credentialGeneration, 8)) && FieldFits(Pack(c.consentVersion, 8))
    ensures c.ServiceSessionContext? ==> FieldFits(Ascii(c.serviceSessionId))
  {
    EncodedLength(c.imtLogin);
  }

  // ---- The info string ----

  datatype Arguments = Arguments(
    envelopeVersion: int, infoVersion: int, suiteId: int, purpose: EnvelopePurpose, profile: PlaintextProfile,
    keyIdDigest: Bytes, payloadLength: int, context: Context)

  predicate ArgumentsAccepted(a: Arguments) {
    && 1 <= a.envelopeVersion <= 255 && 1 <= a.infoVersion <= 255 && 1 <= a.suiteId <= 255
    && |a.keyIdDigest| == 32
    && 1 <= a.payloadLength <= 0xFFFF_FFFF
  }

  lemma ArgumentsAre(a: Arguments)
    ensures ArgumentsAccepted(a)
       <==> && 0 < a.envelopeVersion < 256 && 0 < a.infoVersion < 256 && 0 < a.suiteId < 256
            && |a.keyIdDigest| == 32 && 0 < a.payloadLength < 0x1_0000_0000
    ensures ArgumentsAccepted(a) ==>
              var h := Head(a);
              && h[0] == 23 && (forall i :: 0 <= i < 23 ==> h[1 + i] == "IMTegrale/internal-hpke"[i] as int)
              && h[24] == a.infoVersion && h[25] == a.envelopeVersion && h[26] == a.suiteId
              && h[27] == (if a.purpose == ImtSyncCredential then 1 else 2)
              && h[28] == (if a.profile == ImtPasswordFrameV1 then 1 else 2)
              && h[29] == 32 && h[30..62] == a.keyIdDigest && h[62..66] == Pack(a.payloadLength, 4)
              && h[66] == ContextKind(a.context) && h[67] == FieldCount(a.context)
  {
  }

  function Head(a: Arguments): (h: Bytes)
    requires ArgumentsAccepted(a)
    ensures |h| == 68
  {
    [|APPLICATION_DOMAIN|] + APPLICATION_DOMAIN
    + [a.infoVersion, a.envelopeVersion, a.suiteId, PurposeCode(a.purpose), ProfileCode(a.profile), 32]
    + a.keyIdDigest + Pack(a.payloadLength, 4) + [ContextKind(a.context), FieldCount(a.context)]
  }

  function EncodeInfo(a: Arguments): Result<Bytes, ContextError>
    requires ValidContext(a.context)
  {
    if !ArgumentsAccepted(a) then Err(ContextValidationError)
    else
      var encoded := Head(a) + ContextFields(a.context);
      if |encoded| > MAX_INFO_BYTES then Err(ContextValidationError) else Ok(encoded)
  }

  /** The exact size of an info string: at most 292 bytes for a sync credential and at most 309
      for a service session, both reached by a login of 160 bytes. */
  lemma InfoLength(a: Arguments)
    requires ValidContext(a.context) && ArgumentsAccepted(a)
    ensures var size := |Head(a) + ContextFields(a.context)|;
            && size == (if a.context.SyncCredentialContext? then 132 else 149) + |EncodeAll(a.context.imtLogin)|
            && size <= (if a.context.SyncCredentialContext? then 292 else 309)
  {
  }

  /** An info string stays within 292 bytes exactly when it is for a sync credential or its login
      takes at most 143 bytes. */
  lemma ShortInfoIff(a: Arguments)
    requires ValidContext(a.context) && ArgumentsAccepted(a)
    ensures |Head(a) + ContextFields(a.context)| <= 292 <==>
              a.context.SyncCredentialContext? || |EncodeAll(a.context.imtLogin)| <= 143
  {
    InfoLength(a);
    if a.context.SyncCredentialContext? {
      assert |EncodeAll(a.context.imtLogin)| <= MAX_LOGIN;
    }
  }

  function Letters(n: nat): (t: Text)
    ensures |t| == n && forall i :: 0 <= i < n ==> t[i] == 0x61
  {
    seq(n, i => 0x61)
  }

  lemma {:induction false} LettersLength(n: nat)
    ensures |EncodeAll(Letters(n))| == n
  {
    if n > 0 {
      assert Letters(n)[1..] == Letters(n - 1);
      LettersLength(n - 1);
    }
  }

  function SomeUuid(): (t: Text)
    ensures CanonicalUuid(t)
  {
    var t := seq(36, i requires 0 <= i < 36 => if i == 8 || i == 13 || i == 18 || i == 23 then 0x2D else 0x31);
    assert t[0] == 0x31;
    t
  }

  /** The longest info string there is: a service session of a 160-letter login, 309 bytes. */
  lemma LongestInfo(a: Arguments)
    requires ArgumentsAccepted(a) && a.context == ServiceSessionContext(SomeUuid(), Letters(MAX_LOGIN), SomeUuid())
    ensures ValidContext(a.context) && |Head(a) + ContextFields(a.context)| == 309
  {
    LettersLength(MAX_LOGIN);
    assert ValidLogin(Letters(MAX_LOGIN));
    InfoLength(a);
  }

  /** The size check never fires: exactly the well-formed arguments are accepted. */
  lemma EncodeInfoAccepts(a: Arguments)
    requires ValidContext(a.context)
    ensures EncodeInfo(a).Ok? <==> ArgumentsAccepted(a)
  {
    if ArgumentsAccepted(a) {
      InfoLength(a);
    }
  }

  // ---- Injectivity ----

  lemma Cancel(a: Bytes, b: Bytes, c: Bytes, d: Bytes)
    requires a + b == c + d && |a| == |c|
    ensures a == c && b == d
  {
    assert a == (a + b)[..|a|] == (c + d)[..|c|] == c;
    assert b == (a + b)[|a|..] == (c + d)[|c|..] == d;
  }

  /** A field can be read off the front of a string in only one way. */
  lemma FieldCancel(id: Byte, v: Bytes, rest: Bytes, id': Byte, v': Bytes, rest': Bytes)
    requires FieldFits(v) && FieldFits(v')
    requires Field(id, v) + rest == Field(id', v') + rest'
    ensures id == id' && v == v' && rest == rest'
  {
    var s, s' := [id] + (Pack(|v|, 2) + (v + rest)), [id'] + (Pack(|v'|, 2) + (v' + rest'));
    assert s == Field(id, v) + rest && s' == Field(id', v') + rest';
    Cancel([id], Pack(|v|, 2) + (v + rest), [id'], Pack(|v'|, 2) + (v' + rest'));
    Cancel(Pack(|v|, 2), v + rest, Pack(|v'|, 2), v' + rest');
    PowersOf256();
    PackInjective(|v|, |v'|, 2);
    Cancel(v, rest, v', rest');
  }

  lemma AsciiInjective(t: Text, u: Text)
    requires forall i :: 0 <= i < |t| ==> t[i] < 0x80
    requires forall i :: 0 <= i < |u| ==> u[i] < 0x80
    requires Ascii(t) == Ascii(u)
    ensures t == u
  {
    assert |Ascii(t)| == |t| && |Ascii(u)| == |u|;
    forall i | 0 <= i < |t| ensures t[i] == u[i] {
      assert Ascii(t)[i] == Ascii(u)[i];
    }
  }

  lemma LastFieldsInjective(c: Context, d: Context)
    requires ValidContext(c) && ValidContext(d) && c.SyncCredentialContext? == d.SyncCredentialContext?
    requires LastFields(c) == LastFields(d)
    ensures c.SyncCredentialContext? ==>
              c.credentialGeneration == d.credentialGeneration && c.consentVersion == d.consentVersion
    ensures c.ServiceSessionContext? ==> c.serviceSessionId == d.serviceSessionId
  {
    FieldsFit(c);
    FieldsFit(d);
    if c.SyncCredentialContext? {
      FieldCancel(3, Pack(c.credentialGeneration, 8), Field(4, Pack(c.consentVersion, 8)),
                  3, Pack(d.credentialGeneration, 8), Field(4, Pack(d.consentVersion, 8)));
      Cancel([4] + Pack(8, 2), Pack(c.consentVersion, 8), [4] + Pack(8, 2), Pack(d.consentVersion, 8));
      PowersOf256();
      PackInjective(c.credentialGeneration, d.credentialGeneration, 8);
      PackInjective(c.consentVersion, d.consentVersion, 8);
    } else {
      Cancel([5] + Pack(36, 2), Ascii(c.serviceSessionId), [5] + Pack(36, 2), Ascii(d.serviceSessionId));
      AsciiInjective(c.serviceSessionId, d.serviceSessionId);
    }
  }

  lemma FieldsInjective(c: Context, d: Context)
    requires ValidContext(c) && ValidContext(d) && ContextKind(c) == ContextKind(d)
    requires ContextFields(c) == ContextFields(d)
    ensures c == d
  {
    FieldsFit(c);
    FieldsFit(d);
    FieldCancel(1, Ascii(c.accountId), Field(2, EncodeAll(c.imtLogin)) + LastFields(c),
                1, Ascii(d.accountId), Field(2, EncodeAll(d.imtLogin)) + LastFields(d));
    FieldCancel(2, EncodeAll(c.imtLogin), LastFields(c), 2, EncodeAll(d.imtLogin), LastFields(d));
    AsciiInjective(c.accountId, d.accountId);
    EncodeInjective(c.imtLogin, d.imtLogin);
    LastFieldsInjective(c, d);
  }

  lemma HeadInjective(a: Arguments, b: Arguments)
    requires ArgumentsAccepted(a) && ArgumentsAccepted(b) && Head(a) == Head(b)
    ensures a.(context := b.context) == b && ContextKind(a.context) == ContextKind(b.context)
  {
    var h, k := Head(a), Head(b);
    assert h[24] == a.infoVersion && k[24] == b.infoVersion;
    assert h[25] == a.envelopeVersion && k[25] == b.envelopeVersion;
    assert h[26] == a.suiteId && k[26] == b.suiteId;
    assert h[27] == PurposeCode(a.purpose) && k[27] == PurposeCode(b.purpose);
    assert h[28] == ProfileCode(a.profile) && k[28] == ProfileCode(b.profile);
    assert h[30..62] == a.keyIdDigest && k[30..62] == b.keyIdDigest;
    assert h[62..66] == Pack(a.payloadLength, 4) && k[62..66] == Pack(b.payloadLength, 4);
    assert h[66] == ContextKind(a.context) && k[66] == ContextKind(b.context);
    PowersOf256();
    PackInjective(a.payloadLength, b.payloadLength, 4);
  }

  /** Distinct accepted arguments never share an info string; in particular the two kinds of
      context never collide. */
  lemma EncodeInfoInjective(a: Arguments, b: Arguments)
    ensures ValidContext(a.context) && ValidContext(b.context) && EncodeInfo(a).Ok? && EncodeInfo(a) == EncodeInfo(b) ==>
              a == b
  {
    if ValidContext(a.context) && ValidContext(b.context) && EncodeInfo(a).Ok? && EncodeInfo(a) == EncodeInfo(b) {
      Cancel(Head(a), ContextFields(a.context), Head(b), ContextFields(b.context));
      HeadInjective(a, b);
      FieldsInjective(a.context, b.context);
    }
  }

  // ---- Binding ----

  /** Purpose, profile and context must all be of the same of the two kinds. */
  predicate Bound(purpose: EnvelopePurpose, profile: PlaintextProfile, c: Context) {
    || (purpose.ImtSyncCredential? && profile.ImtPasswordFrameV1? && c.SyncCredentialContext?)
    || (purpose.PassServiceSession? && profile.PassServiceSessionV1? && c.ServiceSessionContext?)
  }

  lemma BoundMeans(purpose: EnvelopePurpose, profile: PlaintextProfile, c: Context)
    ensures Bound(purpose, profile, c)
       <==> && (purpose == ImtSyncCredential <==> c.SyncCredentialContext?)
            && (profile == ImtPasswordFrameV1 <==> c.SyncCredentialContext?)
  {
  }
}
