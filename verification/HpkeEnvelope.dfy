/** The fixed-layout envelope around an HPKE payload, and the keyring that opens it. */
module HpkeEnvelopes {
  import opened Wrappers
  import opened Utf8
  import opened HpkeContext
  import opened SecretFrames

  const ENVELOPE_VERSION := 1
  const SUITE_ID := 1
  const HEADER_SIZE := 52
  const FIXED_OVERHEAD := 48
  const MAX_ENVELOPE_BYTES := 65652
  const RESERVED: Bytes := [0, 0, 0]

  /** "IMTHPKE" and a zero byte. */
  const ENVELOPE_MAGIC: Bytes := [0x49, 0x4D, 0x54, 0x48, 0x50, 0x4B, 0x45, 0]

  datatype EnvelopeError =
    | FormatError | UnsupportedError | AuthenticationError | KeyUnavailableError
    | EncryptionError | InvalidContext | KeyMaterialError

  // ---- HPKE as an ideal pair ----

  type Key = b: Bytes | |b| == 32 witness seq(32, _ => 0)

  /** Single-shot HPKE and the digest that names a public key. Sealing draws an ephemeral key. */
  datatype Hpke = Hpke(
    publicOf: Key -> Key,
    digest: Key -> Key,
    seal: (Bytes, Key, Bytes, Key) -> Bytes,
    open: (Bytes, Key, Bytes) -> Option<Bytes>)

  /** Open-after-seal (section 6.1 of RFC 9180), the fixed overhead, and no two public keys with
      one digest. */
  ghost predicate Ideal(h: Hpke) {
    && (forall k, l: Key :: h.digest(k) == h.digest(l) ==> k == l)
    && (forall plain, pk: Key, info, e: Key :: |h.seal(plain, pk, info, e)| == |plain| + FIXED_OVERHEAD)
    && (forall plain, sk: Key, info, e: Key :: h.open(h.seal(plain, h.publicOf(sk), info, e), sk, info) == Some(plain))
  }

  /** No other info string opens this payload: what the authentication tag is for. */
  ghost predicate OpensOnlyUnder(h: Hpke, payload: Bytes, sk: Key, info: Bytes) {
    forall other :: other != info ==> h.open(payload, sk, other) == None
  }

  function Zeros(n: nat): (z: Bytes)
    ensures |z| == n
  {
    seq(n, i => 0)
  }

  function Tagged(tag: Byte, plain: Bytes): Bytes {
    plain + Zeros(FIXED_OVERHEAD - 1) + [tag]
  }

  function Untagged(tag: Byte, payload: Bytes): Option<Bytes> {
    if |payload| < FIXED_OVERHEAD || payload[|payload| - 1] != tag then None
    else Some(payload[..|payload| - FIXED_OVERHEAD])
  }

  lemma UntagTagged(tag: Byte, plain: Bytes)
    ensures Untagged(tag, Tagged(tag, plain)) == Some(plain)
  {
    assert Tagged(tag, plain)[..|plain|] == plain;
  }

  /** The two assumptions made of HPKE can hold together: some suite is ideal and seals under a
      given info string only what opens under no other. */
  lemma IdealIsPossible(info: Bytes)
    ensures exists h: Hpke ::
              Ideal(h) && forall plain, sk: Key, e: Key ::
                OpensOnlyUnder(h, h.seal(plain, h.publicOf(sk), info, e), sk, info)
  {
    var h := Hpke((k: Key) => k, (k: Key) => k,
      (plain: Bytes, k: Key, i: Bytes, e: Key) => Tagged(if i == info then 1 else 0, plain),
      (payload: Bytes, k: Key, i: Bytes) => Untagged(if i == info then 1 else 0, payload));
    forall tag: Byte, plain ensures Untagged(tag, Tagged(tag, plain)) == Some(plain) {
      UntagTagged(tag, plain);
    }
    assert Ideal(h);
  }

  // ---- Key ids ----

  function HexChar(n: int): CodePoint
    requires 0 <= n < 16
  {
    if n < 10 then 0x30 + n else 0x57 + n
  }

  function HexValue(c: CodePoint): int
    requires HexDigit(c)
  {
    if c <= 0x39 then c - 0x30 else c - 0x57
  }

  function Hex(b: Bytes): Text {
    if b == [] then [] else [HexChar(b[0] / 16), HexChar(b[0] % 16)] + Hex(b[1..])
  }

  predicate IsHex(t: Text) {
    |t| % 2 == 0 && forall i :: 0 <= i < |t| ==> HexDigit(t[i])
  }

  function FromHex(t: Text): Bytes
    requires IsHex(t)
  {
    if t == [] then [] else [HexValue(t[0]) * 16 + HexValue(t[1])] + FromHex(t[2..])
  }

  lemma {:induction false} HexRoundTrip(b: Bytes)
    ensures |Hex(b)| == 2 * |b| && IsHex(Hex(b)) && FromHex(Hex(b)) == b
  {
    if b != [] {
      HexRoundTrip(b[1..]);
      assert Hex(b)[2..] == Hex(b[1..]);
      assert b == [b[0]] + b[1..];
    }
  }

  lemma {:induction false} FromHexRoundTrip(t: Text)
    requires IsHex(t)
    ensures 2 * |FromHex(t)| == |t| && Hex(FromHex(t)) == t
  {
    if t != [] {
      FromHexRoundTrip(t[2..]);
      assert FromHex(t)[1..] == FromHex(t[2..]);
      assert t == [t[0], t[1]] + t[2..];
    }
  }

  /** High digit first, "0" to "9" and "a" to "f". */
  lemma HexIs(b: Byte)
    ensures |Hex([b])| == 2
    ensures "0123456789abcdef"[b / 16] as int == Hex([b])[0] && "0123456789abcdef"[b % 16] as int == Hex([b])[1]
  {
    assert [b][1..] == [];
    DigitIs(b / 16);
    DigitIs(b % 16);
  }

  lemma DigitIs(n: int)
    requires 0 <= n < 16
    ensures "0123456789abcdef"[n] as int == HexChar(n)
  {
  }

  lemma {:induction false} HexConcat(a: Bytes, b: Bytes)
    ensures Hex(a + b) == Hex(a) + Hex(b)
  {
    if a == [] {
      assert a + b == b;
    } else {
      HexConcat(a[1..], b);
      assert (a + b)[1..] == a[1..] + b;
    }
  }

  lemma {:induction false} HexZeros(t: Text)
    requires IsHex(t)
    ensures (forall i :: 0 <= i < |t| ==> t[i] == 0x30) <==> forall i :: 0 <= i < |FromHex(t)| ==> FromHex(t)[i] == 0
  {
    if t != [] {
      HexZeros(t[2..]);
      FromHexRoundTrip(t);
      FromHexRoundTrip(t[2..]);
      var b, rest := FromHex(t), FromHex(t[2..]);
      assert forall i :: 0 <= i < |rest| ==> rest[i] == b[i + 1];
      assert forall i :: 2 <= i < |t| ==> t[i] == t[2..][i - 2];
    }
  }

  // ---- Canonical UUIDs ----

  /** The text of a UUID: the digits of its sixteen bytes, grouped by hyphens. */
  function Hyphenated(b: Bytes): Text
    requires |b| == 16
  {
    Hex(b[..4]) + [0x2D] + Hex(b[4..6]) + [0x2D] + Hex(b[6..8]) + [0x2D] + Hex(b[8..10]) + [0x2D] + Hex(b[10..])
  }

  /** The digits of a text in that form. */
  function Digits(t: Text): (d: Text)
    requires |t| == 36
    ensures |d| == 32
  {
    t[..8] + t[9..13] + t[14..18] + t[19..23] + t[24..]
  }

  predicate HyphensPlaced(t: Text) {
    |t| == 36 && t[8] == 0x2D && t[13] == 0x2D && t[18] == 0x2D && t[23] == 0x2D
  }

  lemma DigitsPlaced(t: Text)
    requires HyphensPlaced(t)
    ensures CanonicalUuid(t) <==> IsHex(Digits(t)) && exists i :: 0 <= i < 32 && Digits(t)[i] != 0x30
  {
    var d := Digits(t);
    assert forall i :: 0 <= i < 32 ==> d[i] == t[PlaceOf(i)];
    assert forall i :: 0 <= i < 36 && i != 8 && i != 13 && i != 18 && i != 23 ==> t[i] == d[DigitAt(i)];
    assert forall i :: 0 <= i < 32 ==> DigitAt(PlaceOf(i)) == i;
  }

  function PlaceOf(i: int): int {
    if i < 8 then i else if i < 12 then i + 1 else if i < 16 then i + 2 else if i < 20 then i + 3 else i + 4
  }

  function DigitAt(i: int): int {
    if i < 8 then i else if i < 13 then i - 1 else if i < 18 then i - 2 else if i < 23 then i - 3 else i - 4
  }

  lemma DigitsOfGroups(a: Text, b: Text, c: Text, d: Text, e: Text)
    requires |a| == 8 && |b| == 4 && |c| == 4 && |d| == 4 && |e| == 12
    ensures var t := a + [0x2D] + b + [0x2D] + c + [0x2D] + d + [0x2D] + e;
            HyphensPlaced(t) && Digits(t) == a + b + c + d + e
  {
    var t := a + [0x2D] + b + [0x2D] + c + [0x2D] + d + [0x2D] + e;
    assert t[..8] == a && t[9..13] == b && t[14..18] == c && t[19..23] == d && t[24..] == e;
  }

  lemma HyphenatedDigits(b: Bytes)
    requires |b| == 16
    ensures HyphensPlaced(Hyphenated(b)) && Digits(Hyphenated(b)) == Hex(b)
  {
    HexRoundTrip(b[..4]);
    HexRoundTrip(b[4..6]);
    HexRoundTrip(b[6..8]);
    HexRoundTrip(b[8..10]);
    HexRoundTrip(b[10..]);
    DigitsOfGroups(Hex(b[..4]), Hex(b[4..6]), Hex(b[6..8]), Hex(b[8..10]), Hex(b[10..]));
    HexConcat(b[..4], b[4..6]);
    HexConcat(b[..4] + b[4..6], b[6..8]);
    HexConcat(b[..4] + b[4..6] + b[6..8], b[8..10]);
    HexConcat(b[..4] + b[4..6] + b[6..8] + b[8..10], b[10..]);
    assert b == b[..4] + b[4..6] + b[6..8] + b[8..10] + b[10..];
  }

  lemma SameDigits(t: Text, u: Text)
    requires HyphensPlaced(t) && HyphensPlaced(u) && Digits(t) == Digits(u)
    ensures t == u
  {
    forall i | 0 <= i < 36 ensures t[i] == u[i] {
      if i != 8 && i != 13 && i != 18 && i != 23 {
        assert t[i] == Digits(t)[DigitAt(i)] && u[i] == Digits(u)[DigitAt(i)];
      }
    }
  }

  /** The texts accepted as UUIDs are exactly those of sixteen bytes that are not all zero. */
  lemma CanonicalUuidMeans(t: Text)
    ensures CanonicalUuid(t) <==> exists b: Bytes :: |b| == 16 && Hyphenated(b) == t && exists i :: 0 <= i < 16 && b[i] != 0
  {
    if HyphensPlaced(t) && IsHex(Digits(t)) {
      var b := FromHex(Digits(t));
      FromHexRoundTrip(Digits(t));
      HexZeros(Digits(t));
      HyphenatedDigits(b);
      SameDigits(t, Hyphenated(b));
      DigitsPlaced(t);
    }
    if b: Bytes :| |b| == 16 && Hyphenated(b) == t && exists i :: 0 <= i < 16 && b[i] != 0 {
      HyphenatedDigits(b);
      HexRoundTrip(b);
      HexZeros(Hex(b));
      DigitsPlaced(t);
    }
    if CanonicalUuid(t) {
      DigitsPlaced(t);
    }
  }

  predicate IsKeyId(t: Text) {
    |t| == 64 && IsHex(t)
  }

  function KeyId(h: Hpke, pk: Key): Text {
    Hex(h.digest(pk))
  }

  lemma KeyIdIsHex(h: Hpke, pk: Key)
    ensures IsKeyId(KeyId(h, pk)) && FromHex(KeyId(h, pk)) == h.digest(pk)
  {
    HexRoundTrip(h.digest(pk));
  }

  // ---- Keyring ----

  datatype Keyring = Keyring(keys: map<Text, Key>, active: Option<Text>)

  ghost predicate ValidKeyring(h: Hpke, ring: Keyring) {
    && (forall id :: id in ring.keys ==> id == KeyId(h, h.publicOf(ring.keys[id])))
    && (ring.active.Some? ==> ring.active.value in ring.keys)
  }

  ghost predicate EntriesAccepted(h: Hpke, entries: seq<(Text, Key)>) {
    && (forall i :: 0 <= i < |entries| ==> entries[i].0 == KeyId(h, h.publicOf(entries[i].1)))
    && forall i, j :: 0 <= i < j < |entries| ==> entries[i].0 != entries[j].0
  }

  ghost predicate HoldsExactly(keys: map<Text, Key>, entries: seq<(Text, Key)>) {
    && (forall i :: 0 <= i < |entries| ==> entries[i].0 in keys && keys[entries[i].0] == entries[i].1)
    && forall id :: id in keys ==> exists i :: 0 <= i < |entries| && entries[i].0 == id
  }

  /** One more entry: it must be well named and new. */
  lemma OneMoreEntry(h: Hpke, entries: seq<(Text, Key)>, n: nat, keys: map<Text, Key>)
    requires n < |entries| && EntriesAccepted(h, entries[..n]) && HoldsExactly(keys, entries[..n])
    ensures EntriesAccepted(h, entries[..n + 1]) <==>
              entries[n].0 == KeyId(h, h.publicOf(entries[n].1)) && entries[n].0 !in keys
    ensures EntriesAccepted(h, entries[..n + 1]) ==> HoldsExactly(keys[entries[n].0 := entries[n].1], entries[..n + 1])
  {
    var before, after := entries[..n], entries[..n + 1];
    assert after == before + [entries[n]];
    if entries[n].0 in keys {
      var i :| 0 <= i < |before| && before[i].0 == entries[n].0;
      assert after[i].0 == after[n].0;
    }
    if EntriesAccepted(h, after) {
      assert after[n] == entries[n];
      var more := keys[entries[n].0 := entries[n].1];
      forall id | id in more ensures exists i :: 0 <= i < |after| && after[i].0 == id {
        if id in keys {
          var i :| 0 <= i < |before| && before[i].0 == id;
          assert after[i].0 == id;
        } else {
          assert after[n].0 == id;
        }
      }
    }
  }

  lemma PrefixAccepted(h: Hpke, entries: seq<(Text, Key)>, n: nat)
    requires n <= |entries| && EntriesAccepted(h, entries)
    ensures EntriesAccepted(h, entries[..n])
  {
  }

  /** Builds a keyring holding exactly the given entries, when every declared id is the id of its
      key, no id comes twice and the active id, if any, is among them; refuses otherwise. */
  method BuildKeyring(h: Hpke, entries: seq<(Text, Key)>, active: Option<Text>)
    returns (r: Result<Keyring, EnvelopeError>)
    ensures r.Ok? <==>
              EntriesAccepted(h, entries)
              && (active.Some? ==> exists i :: 0 <= i < |entries| && entries[i].0 == active.value)
    ensures r.Ok? ==> HoldsExactly(r.value.keys, entries) && r.value.active == active && ValidKeyring(h, r.value)
    ensures r.Err? ==> r.error == KeyMaterialError
  {
    var indexed: map<Text, Key> := map[];
    var n := 0;
    while n < |entries|
      invariant 0 <= n <= |entries|
      invariant EntriesAccepted(h, entries[..n]) && HoldsExactly(indexed, entries[..n])
    {
      var (id, key) := entries[n];
      KeyIdIsHex(h, h.publicOf(key));
      OneMoreEntry(h, entries, n, indexed);
      if !IsKeyId(id) || id != KeyId(h, h.publicOf(key)) || id in indexed {
        if EntriesAccepted(h, entries) {
          PrefixAccepted(h, entries, n + 1);
        }
        return Err(KeyMaterialError);
      }
      indexed := indexed[id := key];
      n := n + 1;
    }
    assert entries[..n] == entries;
    if active.Some? && active.value !in indexed {
      return Err(KeyMaterialError);
    }
    return Ok(Keyring(indexed, active));
  }

  // ---- Envelopes ----

  datatype Envelope = Envelope(
    encoded: Bytes, version: int, infoVersion: int, suiteId: int, purpose: EnvelopePurpose,
    profile: PlaintextProfile, keyId: Text, payloadLength: int)
  {
    function Payload(): Bytes {
      if |encoded| < HEADER_SIZE then [] else encoded[HEADER_SIZE..]
    }
  }

  function FrameSize(profile: PlaintextProfile): nat {
    if profile.ImtPasswordFrameV1? then PASSWORD_FRAME_SIZE else SESSION_FRAME_SIZE
  }

  predicate PayloadLengthValid(profile: PlaintextProfile, length: int) {
    length == FrameSize(profile) + FIXED_OVERHEAD
  }

  function PurposeOf(code: Byte): Option<EnvelopePurpose> {
    if code == 1 then Some(ImtSyncCredential) else if code == 2 then Some(PassServiceSession) else None
  }

  function ProfileOf(code: Byte): Option<PlaintextProfile> {
    if code == 1 then Some(ImtPasswordFrameV1) else if code == 2 then Some(PassServiceSessionV1) else None
  }

  function ParseEnvelope(b: Bytes): Result<Envelope, EnvelopeError> {
    if !(HEADER_SIZE <= |b| <= MAX_ENVELOPE_BYTES) then Err(FormatError)
    else if b[..8] != ENVELOPE_MAGIC then Err(FormatError)
    else if b[8] != ENVELOPE_VERSION || b[9] != INFO_SCHEMA_VERSION || b[10] != SUITE_ID then Err(UnsupportedError)
    else if PurposeOf(b[11]).None? || ProfileOf(b[12]).None? then Err(UnsupportedError)
    else
      var profile, length := ProfileOf(b[12]).value, Unpack(b[45..49]);
      if b[49..52] != RESERVED then Err(FormatError)
      else if !PayloadLengthValid(profile, length) then Err(FormatError)
      else if |b| != HEADER_SIZE + length then Err(FormatError)
      else Ok(Envelope(b, b[8], b[9], b[10], PurposeOf(b[11]).value, profile, Hex(b[13..45]), length))
  }

  function HeaderBytes(purpose: EnvelopePurpose, profile: PlaintextProfile, digest: Bytes, length: nat): Bytes {
    ENVELOPE_MAGIC + [ENVELOPE_VERSION, INFO_SCHEMA_VERSION, SUITE_ID, PurposeCode(purpose), ProfileCode(profile)]
    + digest + Pack(length, 4) + RESERVED
  }

  lemma HeaderParts(purpose: EnvelopePurpose, profile: PlaintextProfile, digest: Bytes, length: nat, payload: Bytes)
    requires |digest| == 32
    ensures var b := HeaderBytes(purpose, profile, digest, length) + payload;
            && |b| == HEADER_SIZE + |payload| && b[..8] == ENVELOPE_MAGIC
            && b[8] == ENVELOPE_VERSION && b[9] == INFO_SCHEMA_VERSION && b[10] == SUITE_ID
            && b[11] == PurposeCode(purpose) && b[12] == ProfileCode(profile)
            && b[13..45] == digest && b[45..49] == Pack(length, 4) && b[49..52] == RESERVED && b[52..] == payload
  {
  }

  /** The fields say what the bytes say, and the payload has the length its profile calls for. */
  ghost predicate WellFormed(e: Envelope) {
    && e.version == ENVELOPE_VERSION && e.infoVersion == INFO_SCHEMA_VERSION && e.suiteId == SUITE_ID
    && IsKeyId(e.keyId) && PayloadLengthValid(e.profile, e.payloadLength) && |e.Payload()| == e.payloadLength
  }

  lemma ParsedParts(b: Bytes)
    requires ParseEnvelope(b).Ok?
    ensures var e := ParseEnvelope(b).value;
            WellFormed(e) && e.encoded == b
            && b == HeaderBytes(e.purpose, e.profile, FromHex(e.keyId), e.payloadLength) + e.Payload()
  {
    var e := ParseEnvelope(b).value;
    HexRoundTrip(b[13..45]);
    PackUnpacked(b[45..49]);
    assert b == b[..8] + [b[8], b[9], b[10], b[11], b[12]] + b[13..45] + b[45..49] + b[49..52] + b[52..];
  }

  lemma SerializedParses(e: Envelope)
    requires WellFormed(e)
    requires e.encoded == HeaderBytes(e.purpose, e.profile, FromHex(e.keyId), e.payloadLength) + e.Payload()
    ensures ParseEnvelope(e.encoded) == Ok(e)
  {
    FromHexRoundTrip(e.keyId);
    HeaderParts(e.purpose, e.profile, FromHex(e.keyId), e.payloadLength, e.Payload());
    PowersOf256();
    UnpackPacked(e.payloadLength, 4);
  }

  /** The sizes an envelope can have, and the bytes each begins with. */
  predicate Opened(b: Bytes) {
    52 <= |b| <= 65652 && (forall i :: 0 <= i < 7 ==> b[i] == "IMTHPKE"[i] as int) && b[7] == 0
  }

  /** The versions, the suite, a purpose and a profile that are known. */
  predicate Supported(b: Bytes)
    requires Opened(b)
  {
    b[8] == 1 && b[9] == 1 && b[10] == 1 && 1 <= b[11] <= 2 && 1 <= b[12] <= 2
  }

  /** Which bytes parse, what the fields then are, and with which error others are refused. */
  lemma ParseMeans(b: Bytes)
    ensures ParseEnvelope(b) == Err(UnsupportedError) <==> Opened(b) && !Supported(b)
    ensures ParseEnvelope(b).Ok? <==>
              && Opened(b) && Supported(b) && b[49] == 0 && b[50] == 0 && b[51] == 0
              && |b| == (if b[12] == 1 then 3172 else 65652)
              && Unpack(b[45..49]) == |b| - 52
    ensures ParseEnvelope(b).Err? && !(Opened(b) && !Supported(b)) ==> ParseEnvelope(b) == Err(FormatError)
    ensures ParseEnvelope(b).Ok? ==>
              var e := ParseEnvelope(b).value;
              && (e.purpose == ImtSyncCredential <==> b[11] == 1) && (e.profile == ImtPasswordFrameV1 <==> b[12] == 1)
              && e.keyId == Hex(b[13..45]) && e.payloadLength == |b| - 52 && e.encoded == b
  {
    if 52 <= |b| {
      assert b[..8] == ENVELOPE_MAGIC <==> (forall i :: 0 <= i < 7 ==> b[i] == "IMTHPKE"[i] as int) && b[7] == 0 by {
        assert b[..8] == [b[0], b[1], b[2], b[3], b[4], b[5], b[6], b[7]];
        assert forall i :: 0 <= i < 7 ==> ENVELOPE_MAGIC[i] == "IMTHPKE"[i] as int;
        if forall i :: 0 <= i < 7 ==> b[i] == "IMTHPKE"[i] as int {
          assert forall i :: 0 <= i < 7 ==> b[i] == ENVELOPE_MAGIC[i];
        } else {
          var i :| 0 <= i < 7 && b[i] != "IMTHPKE"[i] as int;
          assert b[..8][i] != ENVELOPE_MAGIC[i];
        }
      }
      assert b[49..52] == [b[49], b[50], b[51]];
    }
  }

  /** Both ways: bytes parse to an envelope exactly when its fields serialise to those bytes. */
  lemma ParseIffSerialized(b: Bytes, e: Envelope)
    ensures ParseEnvelope(b) == Ok(e) <==>
              && WellFormed(e) && e.encoded == b
              && b == HeaderBytes(e.purpose, e.profile, FromHex(e.keyId), e.payloadLength) + e.Payload()
  {
    if ParseEnvelope(b) == Ok(e) {
      ParsedParts(b);
    }
    if WellFormed(e) && e.encoded == b
       && b == HeaderBytes(e.purpose, e.profile, FromHex(e.keyId), e.payloadLength) + e.Payload()
    {
      SerializedParses(e);
    }
  }

  /** Two sizes only: 3172 bytes for a password and 65652, the maximum, for a service session. */
  lemma EnvelopeSize(b: Bytes)
    requires ParseEnvelope(b).Ok?
    ensures |b| == if ParseEnvelope(b).value.profile.ImtPasswordFrameV1? then 3172 else MAX_ENVELOPE_BYTES
  {
  }

  // ---- Sealing and opening ----

  function InfoArguments(
    purpose: EnvelopePurpose, profile: PlaintextProfile, digest: Bytes, length: int, context: Context): Arguments
  {
    Arguments(ENVELOPE_VERSION, INFO_SCHEMA_VERSION, SUITE_ID, purpose, profile, digest, length, context)
  }

  /** `ephemeral` is the key HPKE draws for this message. */
  function SealEnvelope(
    h: Hpke, pk: Key, purpose: EnvelopePurpose, profile: PlaintextProfile, context: Context, plaintext: Bytes,
    ephemeral: Key): Result<Envelope, EnvelopeError>
    requires ValidContext(context)
  {
    if !Bound(purpose, profile, context) then Err(InvalidContext)
    else if |plaintext| != FrameSize(profile) then Err(FormatError)
    else
      var length, digest := |plaintext| + FIXED_OVERHEAD, h.digest(pk);
      var info := EncodeInfo(InfoArguments(purpose, profile, digest, length, context));
      if info.Err? then Err(InvalidContext)
      else
        var payload := h.seal(plaintext, pk, info.value, ephemeral);
        if |payload| != length then Err(EncryptionError)
        else ParseEnvelope(HeaderBytes(purpose, profile, digest, length) + payload)
  }

  function OpenEnvelope(
    h: Hpke, encoded: Bytes, ring: Keyring, purpose: EnvelopePurpose, profile: PlaintextProfile, context: Context)
    : Result<Bytes, EnvelopeError>
    requires ValidContext(context)
  {
    if !Bound(purpose, profile, context) then Err(InvalidContext)
    else
      var parsed := ParseEnvelope(encoded);
      if parsed.Err? then Err(parsed.error)
      else
        var e := parsed.value;
        if e.purpose != purpose || e.profile != profile then Err(AuthenticationError)
        else if e.keyId !in ring.keys then Err(KeyUnavailableError)
        else
          ParsedParts(encoded);
          var info := EncodeInfo(InfoArguments(e.purpose, e.profile, FromHex(e.keyId), e.payloadLength, context));
          if info.Err? then Err(InvalidContext)
          else
            var plain := h.open(e.Payload(), ring.keys[e.keyId], info.value);
            if plain.None? || |plain.value| + FIXED_OVERHEAD != e.payloadLength then Err(AuthenticationError)
            else Ok(plain.value)
  }

  /** The info string a sealed envelope is bound to. */
  function SealingInfo(h: Hpke, pk: Key, purpose: EnvelopePurpose, profile: PlaintextProfile, context: Context)
    : (info: Bytes)
    requires ValidContext(context)
    ensures EncodeInfo(InfoArguments(purpose, profile, h.digest(pk), FrameSize(profile) + FIXED_OVERHEAD, context)) == Ok(info)
  {
    var a := InfoArguments(purpose, profile, h.digest(pk), FrameSize(profile) + FIXED_OVERHEAD, context);
    EncodeInfoAccepts(a);
    EncodeInfo(a).value
  }

  /** Sealing succeeds exactly on a bound context and a whole frame; what it makes parses to
      itself, names the recipient's key and has one of the two sizes. */
  lemma SealSucceeds(
    h: Hpke, pk: Key, purpose: EnvelopePurpose, profile: PlaintextProfile, context: Context, plaintext: Bytes,
    ephemeral: Key)
    requires Ideal(h) && ValidContext(context)
    ensures var sealed := SealEnvelope(h, pk, purpose, profile, context, plaintext, ephemeral);
            && (sealed.Ok? <==> Bound(purpose, profile, context) && |plaintext| == FrameSize(profile))
            && (sealed.Ok? ==>
                  var e := sealed.value;
                  && ParseEnvelope(e.encoded) == sealed
                  && e.purpose == purpose && e.profile == profile && e.keyId == KeyId(h, pk)
                  && |e.encoded| == HEADER_SIZE + FrameSize(profile) + FIXED_OVERHEAD
                  && e.Payload() == h.seal(plaintext, pk, SealingInfo(h, pk, purpose, profile, context), ephemeral))
  {
    if Bound(purpose, profile, context) && |plaintext| == FrameSize(profile) {
      var length, digest := |plaintext| + FIXED_OVERHEAD, h.digest(pk);
      var payload := h.seal(plaintext, pk, SealingInfo(h, pk, purpose, profile, context), ephemeral);
      HeaderParts(purpose, profile, digest, length, payload);
      KeyIdIsHex(h, pk);
      var e := Envelope(HeaderBytes(purpose, profile, digest, length) + payload, ENVELOPE_VERSION,
                        INFO_SCHEMA_VERSION, SUITE_ID, purpose, profile, KeyId(h, pk), length);
      SerializedParses(e);
    }
  }

  /** The key a valid keyring holds under a public key's id is that public key's private key. */
  lemma RightKey(h: Hpke, ring: Keyring, pk: Key)
    requires Ideal(h) && ValidKeyring(h, ring) && KeyId(h, pk) in ring.keys
    ensures h.publicOf(ring.keys[KeyId(h, pk)]) == pk
  {
    KeyIdIsHex(h, pk);
    KeyIdIsHex(h, h.publicOf(ring.keys[KeyId(h, pk)]));
  }

  /** Whoever holds the key and gives the same purpose, profile and context reads the plaintext. */
  lemma OpenAfterSeal(
    h: Hpke, pk: Key, purpose: EnvelopePurpose, profile: PlaintextProfile, context: Context, plaintext: Bytes,
    ephemeral: Key, ring: Keyring)
    requires Ideal(h) && ValidContext(context) && ValidKeyring(h, ring)
    requires Bound(purpose, profile, context) && |plaintext| == FrameSize(profile)
    ensures SealEnvelope(h, pk, purpose, profile, context, plaintext, ephemeral).Ok?
    ensures var e := SealEnvelope(h, pk, purpose, profile, context, plaintext, ephemeral).value;
            OpenEnvelope(h, e.encoded, ring, purpose, profile, context)
            == if KeyId(h, pk) in ring.keys then Ok(plaintext) else Err(KeyUnavailableError)
  {
    SealSucceeds(h, pk, purpose, profile, context, plaintext, ephemeral);
    KeyIdIsHex(h, pk);
    if KeyId(h, pk) in ring.keys {
      RightKey(h, ring, pk);
    }
  }

  lemma InfoDiffers(
    h: Hpke, pk: Key, purpose: EnvelopePurpose, profile: PlaintextProfile, context: Context, other: Context)
    requires ValidContext(context) && ValidContext(other) && context != other
    ensures SealingInfo(h, pk, purpose, profile, context) != SealingInfo(h, pk, purpose, profile, other)
  {
    var a := InfoArguments(purpose, profile, h.digest(pk), FrameSize(profile) + FIXED_OVERHEAD, context);
    if SealingInfo(h, pk, purpose, profile, context) == SealingInfo(h, pk, purpose, profile, other) {
      EncodeInfoInjective(a, a.(context := other));
      assert false;
    }
  }

  /** Opening an envelope as something else than it says fails before HPKE is asked. */
  lemma WrongBinding(
    h: Hpke, e: Envelope, ring: Keyring, purpose: EnvelopePurpose, profile: PlaintextProfile, context: Context)
    requires ValidContext(context) && ParseEnvelope(e.encoded) == Ok(e)
    requires e.purpose != purpose || e.profile != profile
    ensures OpenEnvelope(h, e.encoded, ring, purpose, profile, context)
            == Err(if Bound(purpose, profile, context) then AuthenticationError else InvalidContext)
  {
  }

  /** Opening it in a context whose info string does not open its payload fails in HPKE. */
  lemma WrongContext(h: Hpke, pk: Key, e: Envelope, ring: Keyring, context: Context)
    requires ValidContext(context) && ParseEnvelope(e.encoded) == Ok(e)
    requires IsKeyId(e.keyId) && FromHex(e.keyId) == h.digest(pk) && e.keyId in ring.keys
    requires h.open(e.Payload(), ring.keys[e.keyId], SealingInfo(h, pk, e.purpose, e.profile, context)) == None
    ensures OpenEnvelope(h, e.encoded, ring, e.purpose, e.profile, context)
            == Err(if Bound(e.purpose, e.profile, context) then AuthenticationError else InvalidContext)
  {
    ParsedParts(e.encoded);
  }

  /** A sealed envelope opens under its own purpose, profile and context and under no others: two
      different bindings never hand HPKE the same info string. */
  lemma OpensOnlyInItsContext(
    h: Hpke, pk: Key, purpose: EnvelopePurpose, profile: PlaintextProfile, context: Context, plaintext: Bytes,
    ephemeral: Key, ring: Keyring,
    otherPurpose: EnvelopePurpose, otherProfile: PlaintextProfile, other: Context)
    requires Ideal(h) && ValidContext(context) && ValidContext(other) && ValidKeyring(h, ring)
    requires Bound(purpose, profile, context) && |plaintext| == FrameSize(profile)
    requires KeyId(h, pk) in ring.keys
    requires var info := SealingInfo(h, pk, purpose, profile, context);
             OpensOnlyUnder(h, h.seal(plaintext, pk, info, ephemeral), ring.keys[KeyId(h, pk)], info)
    ensures SealEnvelope(h, pk, purpose, profile, context, plaintext, ephemeral).Ok?
    ensures var e := SealEnvelope(h, pk, purpose, profile, context, plaintext, ephemeral).value;
            var result := OpenEnvelope(h, e.encoded, ring, otherPurpose, otherProfile, other);
            && (result.Ok? <==> otherPurpose == purpose && otherProfile == profile && other == context)
            && (result.Ok? ==> result.value == plaintext)
            && (result.Err? ==>
                  result.error == if Bound(otherPurpose, otherProfile, other) then AuthenticationError else InvalidContext)
  {
    SealSucceeds(h, pk, purpose, profile, context, plaintext, ephemeral);
    var e := SealEnvelope(h, pk, purpose, profile, context, plaintext, ephemeral).value;
    if otherPurpose != purpose || otherProfile != profile {
      WrongBinding(h, e, ring, otherPurpose, otherProfile, other);
    } else if other != context {
      InfoDiffers(h, pk, purpose, profile, context, other);
      KeyIdIsHex(h, pk);
      WrongContext(h, pk, e, ring, other);
    } else {
      OpenAfterSeal(h, pk, purpose, profile, context, plaintext, ephemeral, ring);
    }
  }

  /** From a password to its envelope and back, for every padding and ephemeral key. */
  lemma PasswordTravels(
    h: Hpke, pk: Key, context: Context, secret: Text, padding: Bytes, ephemeral: Key, ring: Keyring)
    requires Ideal(h) && ValidContext(context) && context.SyncCredentialContext? && ValidKeyring(h, ring)
    requires KeyId(h, pk) in ring.keys && PasswordAccepted(secret) && |padding| == PasswordPadding(secret)
    ensures var purpose, profile := ImtSyncCredential, ImtPasswordFrameV1;
            var sealed := SealEnvelope(h, pk, purpose, profile, context, EncodePasswordFrame(secret, padding).value, ephemeral);
            && sealed.Ok? && |sealed.value.encoded| == 3172
            && var result := OpenEnvelope(h, sealed.value.encoded, ring, purpose, profile, context);
               result.Ok? && DecodePasswordFrame(result.value) == Ok(secret)
  {
    PasswordDecodes(secret, padding);
    var frame := EncodePasswordFrame(secret, padding).value;
    SealSucceeds(h, pk, ImtSyncCredential, ImtPasswordFrameV1, context, frame, ephemeral);
    OpenAfterSeal(h, pk, ImtSyncCredential, ImtPasswordFrameV1, context, frame, ephemeral, ring);
  }

  lemma SnapshotTravels(
    h: Hpke, pk: Key, context: Context, snapshot: Text, padding: Bytes, ephemeral: Key, ring: Keyring)
    requires Ideal(h) && ValidContext(context) && context.ServiceSessionContext? && ValidKeyring(h, ring)
    requires KeyId(h, pk) in ring.keys && SnapshotAccepted(snapshot) && |padding| == SnapshotPadding(snapshot)
    ensures var purpose, profile := PassServiceSession, PassServiceSessionV1;
            var sealed := SealEnvelope(h, pk, purpose, profile, context, EncodeSessionFrame(snapshot, padding).value, ephemeral);
            && sealed.Ok? && |sealed.value.encoded| == MAX_ENVELOPE_BYTES
            && var result := OpenEnvelope(h, sealed.value.encoded, ring, purpose, profile, context);
               result.Ok? && DecodeSessionFrame(result.value) == Ok(snapshot)
  {
    SnapshotDecodes(snapshot, padding);
    var frame := EncodeSessionFrame(snapshot, padding).value;
    SealSucceeds(h, pk, PassServiceSession, PassServiceSessionV1, context, frame, ephemeral);
    OpenAfterSeal(h, pk, PassServiceSession, PassServiceSessionV1, context, frame, ephemeral, ring);
  }
}
