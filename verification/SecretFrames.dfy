/** Fixed-size frames that hide a secret's length behind random padding. */
module SecretFrames {
  import opened Wrappers
  import opened Utf8
  import opened HpkeContext

  const PASSWORD_MAX_CHARACTERS := 512
  const PASSWORD_MAX_BYTES := 2048
  const PASSWORD_FRAME_SIZE := 3072
  const SESSION_MAX_BYTES := 65536
  const SESSION_FRAME_SIZE := 65552
  const FRAME_VERSION: Byte := 1
  const FRAME_RESERVED: Byte := 0

  /** "IMTPWD" and "IMTSESS", zero-filled to eight bytes. */
  const PASSWORD_MAGIC: Bytes := [0x49, 0x4D, 0x54, 0x50, 0x57, 0x44, 0, 0]
  const SESSION_MAGIC: Bytes := [0x49, 0x4D, 0x54, 0x53, 0x45, 0x53, 0x53, 0]

  datatype FrameError = SecretFrameError

  /** Magic, version, reserved byte, big-endian length of `width` bytes, secret, padding. */
  function FrameBytes(magic: Bytes, width: nat, secret: Bytes, padding: Bytes): Bytes {
    magic + [FRAME_VERSION, FRAME_RESERVED] + Pack(|secret|, width) + secret + padding
  }

  /** The secret bytes of a frame, when header and length are as they must be. */
  function SecretBytes(frame: Bytes, magic: Bytes, width: nat, size: nat, most: nat): Option<Bytes>
    requires |magic| == 8
  {
    var header := 10 + width;
    if |frame| != size || size < header + most then None
    else if frame[..8] != magic || frame[8] != FRAME_VERSION || frame[9] != FRAME_RESERVED then None
    else
      var length := Unpack(frame[10..header]);
      if !(1 <= length <= most) then None else Some(frame[header..header + length])
  }

  lemma FrameParts(magic: Bytes, width: nat, secret: Bytes, padding: Bytes)
    requires |magic| == 8
    ensures var f, header := FrameBytes(magic, width, secret, padding), 10 + width;
            && |f| == header + |secret| + |padding|
            && f[..8] == magic && f[8] == FRAME_VERSION && f[9] == FRAME_RESERVED
            && f[10..header] == Pack(|secret|, width)
            && f[header..header + |secret|] == secret
            && f[header + |secret|..] == padding
  {
  }

  /** A secret comes out of its frame, whatever the padding. */
  lemma SecretComesBack(magic: Bytes, width: nat, secret: Bytes, padding: Bytes, most: nat)
    requires |magic| == 8 && 1 <= |secret| <= most < Pow256(width)
    requires |secret| + |padding| >= most
    ensures var f := FrameBytes(magic, width, secret, padding);
            SecretBytes(f, magic, width, |f|, most) == Some(secret)
  {
    FrameParts(magic, width, secret, padding);
    UnpackPacked(|secret|, width);
  }

  /** A frame a secret was read from is the frame of that secret and its own last bytes. */
  lemma FrameComesBack(frame: Bytes, magic: Bytes, width: nat, size: nat, most: nat)
    requires |magic| == 8 && SecretBytes(frame, magic, width, size, most).Some?
    ensures var secret := SecretBytes(frame, magic, width, size, most).value;
            && 1 <= |secret| <= most
            && frame == FrameBytes(magic, width, secret, frame[10 + width + |secret|..])
  {
    var header := 10 + width;
    var secret := SecretBytes(frame, magic, width, size, most).value;
    PackUnpacked(frame[10..header]);
    assert frame == frame[..8] + [frame[8], frame[9]] + frame[10..header]
                    + frame[header..header + |secret|] + frame[header + |secret|..];
  }

  // ---- Passwords ----

  predicate PasswordAccepted(secret: Text) {
    && 1 <= |secret| <= PASSWORD_MAX_CHARACTERS && Encode(secret).Some?
    && 1 <= |Encode(secret).value| <= PASSWORD_MAX_BYTES
  }

  function PasswordPadding(secret: Text): nat
    requires PasswordAccepted(secret)
  {
    PASSWORD_FRAME_SIZE - 12 - |Encode(secret).value|
  }

  /** `padding` is the random tail drawn for an accepted secret. */
  function EncodePasswordFrame(secret: Text, padding: Bytes): Result<Bytes, FrameError>
    requires PasswordAccepted(secret) ==> |padding| == PasswordPadding(secret)
  {
    if !PasswordAccepted(secret) then Err(SecretFrameError)
    else Ok(FrameBytes(PASSWORD_MAGIC, 2, Encode(secret).value, padding))
  }

  function DecodePasswordFrame(frame: Bytes): Result<Text, FrameError> {
    var bytes := SecretBytes(frame, PASSWORD_MAGIC, 2, PASSWORD_FRAME_SIZE, PASSWORD_MAX_BYTES);
    if bytes.None? then Err(SecretFrameError)
    else
      var secret := Decode(bytes.value);
      if secret.None? || !(1 <= |secret.value| <= PASSWORD_MAX_CHARACTERS) then Err(SecretFrameError)
      else Ok(secret.value)
  }

  /** The byte limit never refuses a password within the character limit. */
  lemma PasswordBytesFit(secret: Text)
    ensures PasswordAccepted(secret) <==>
              1 <= |secret| <= PASSWORD_MAX_CHARACTERS && forall c :: c in secret ==> Encodable(c)
  {
    EncodedLength(secret);
  }

  /** Both ways: a frame decodes to a secret exactly when it is that secret's frame for some padding. */
  lemma PasswordFrameRoundTrip(secret: Text, frame: Bytes)
    ensures DecodePasswordFrame(frame) == Ok(secret) <==>
              && PasswordAccepted(secret) && |frame| == PASSWORD_FRAME_SIZE
              && EncodePasswordFrame(secret, frame[PASSWORD_FRAME_SIZE - PasswordPadding(secret)..]) == Ok(frame)
  {
    PowersOf256();
    if DecodePasswordFrame(frame) == Ok(secret) {
      FrameComesBack(frame, PASSWORD_MAGIC, 2, PASSWORD_FRAME_SIZE, PASSWORD_MAX_BYTES);
      EncodeIffDecode(secret, SecretBytes(frame, PASSWORD_MAGIC, 2, PASSWORD_FRAME_SIZE, PASSWORD_MAX_BYTES).value);
    }
    if && PasswordAccepted(secret) && |frame| == PASSWORD_FRAME_SIZE
       && EncodePasswordFrame(secret, frame[PASSWORD_FRAME_SIZE - PasswordPadding(secret)..]) == Ok(frame)
    {
      PasswordDecodes(secret, frame[PASSWORD_FRAME_SIZE - PasswordPadding(secret)..]);
    }
  }

  /** Every accepted password comes back from its 3072-byte frame, for every padding. */
  lemma PasswordDecodes(secret: Text, padding: Bytes)
    requires PasswordAccepted(secret) && |padding| == PasswordPadding(secret)
    ensures var frame := EncodePasswordFrame(secret, padding).value;
            |frame| == PASSWORD_FRAME_SIZE && DecodePasswordFrame(frame) == Ok(secret)
  {
    PowersOf256();
    var bytes := Encode(secret).value;
    FrameParts(PASSWORD_MAGIC, 2, bytes, padding);
    SecretComesBack(PASSWORD_MAGIC, 2, bytes, padding, PASSWORD_MAX_BYTES);
    EncodeIffDecode(secret, bytes);
  }

  // ---- Service sessions ----

  predicate SnapshotAccepted(snapshot: Text) {
    Encode(snapshot).Some? && 1 <= |Encode(snapshot).value| <= SESSION_MAX_BYTES
  }

  function SnapshotPadding(snapshot: Text): nat
    requires SnapshotAccepted(snapshot)
  {
    SESSION_FRAME_SIZE - 14 - |Encode(snapshot).value|
  }

  function EncodeSessionFrame(snapshot: Text, padding: Bytes): Result<Bytes, FrameError>
    requires SnapshotAccepted(snapshot) ==> |padding| == SnapshotPadding(snapshot)
  {
    if !SnapshotAccepted(snapshot) then Err(SecretFrameError)
    else Ok(FrameBytes(SESSION_MAGIC, 4, Encode(snapshot).value, padding))
  }

  function DecodeSessionFrame(frame: Bytes): Result<Text, FrameError> {
    var bytes := SecretBytes(frame, SESSION_MAGIC, 4, SESSION_FRAME_SIZE, SESSION_MAX_BYTES);
    if bytes.None? || Decode(bytes.value).None? then Err(SecretFrameError) else Ok(Decode(bytes.value).value)
  }

  lemma SnapshotDecodes(snapshot: Text, padding: Bytes)
    requires SnapshotAccepted(snapshot) && |padding| == SnapshotPadding(snapshot)
    ensures var frame := EncodeSessionFrame(snapshot, padding).value;
            |frame| == SESSION_FRAME_SIZE && DecodeSessionFrame(frame) == Ok(snapshot)
  {
    PowersOf256();
    var bytes := Encode(snapshot).value;
    FrameParts(SESSION_MAGIC, 4, bytes, padding);
    SecretComesBack(SESSION_MAGIC, 4, bytes, padding, SESSION_MAX_BYTES);
    EncodeIffDecode(snapshot, bytes);
  }

  lemma SessionFrameRoundTrip(snapshot: Text, frame: Bytes)
    ensures DecodeSessionFrame(frame) == Ok(snapshot) <==>
              && SnapshotAccepted(snapshot) && |frame| == SESSION_FRAME_SIZE
              && EncodeSessionFrame(snapshot, frame[SESSION_FRAME_SIZE - SnapshotPadding(snapshot)..]) == Ok(frame)
  {
    PowersOf256();
    if DecodeSessionFrame(frame) == Ok(snapshot) {
      FrameComesBack(frame, SESSION_MAGIC, 4, SESSION_FRAME_SIZE, SESSION_MAX_BYTES);
      EncodeIffDecode(snapshot, SecretBytes(frame, SESSION_MAGIC, 4, SESSION_FRAME_SIZE, SESSION_MAX_BYTES).value);
    }
    if && SnapshotAccepted(snapshot) && |frame| == SESSION_FRAME_SIZE
       && EncodeSessionFrame(snapshot, frame[SESSION_FRAME_SIZE - SnapshotPadding(snapshot)..]) == Ok(frame)
    {
      SnapshotDecodes(snapshot, frame[SESSION_FRAME_SIZE - SnapshotPadding(snapshot)..]);
    }
  }

  // ---- Layout ----

  /** A password frame byte by byte: magic, version, a reserved byte, the length in two bytes, secret and
      padding. */
  lemma PasswordFrameIs(secret: Text, padding: Bytes)
    requires PasswordAccepted(secret) && |padding| == PasswordPadding(secret)
    ensures var f, bytes := EncodePasswordFrame(secret, padding).value, EncodeAll(secret);
            && |f| == 3072 && (forall i :: 0 <= i < 6 ==> f[i] == "IMTPWD"[i] as int) && f[6] == 0 && f[7] == 0
            && f[8] == 1 && f[9] == 0 && f[10] == |bytes| / 256 && f[11] == |bytes| % 256
            && f[12..12 + |bytes|] == bytes && f[12 + |bytes|..] == padding
  {
    var f, bytes := EncodePasswordFrame(secret, padding).value, EncodeAll(secret);
    FrameParts(PASSWORD_MAGIC, 2, bytes, padding);
    PackedEnds(|bytes|);
    assert forall i :: 0 <= i < 8 ==> f[i] == f[..8][i];
    assert f[10] == f[10..12][0] && f[11] == f[10..12][1];
  }

  /** A session frame likewise, with its length in four bytes. */
  lemma SessionFrameIs(snapshot: Text, padding: Bytes)
    requires SnapshotAccepted(snapshot) && |padding| == SnapshotPadding(snapshot)
    ensures var f, bytes := EncodeSessionFrame(snapshot, padding).value, EncodeAll(snapshot);
            && |f| == 65552 && (forall i :: 0 <= i < 7 ==> f[i] == "IMTSESS"[i] as int) && f[7] == 0
            && f[8] == 1 && f[9] == 0
            && f[10] == 0 && f[11] == |bytes| / 0x1_0000 && f[12] == |bytes| / 0x100 % 256 && f[13] == |bytes| % 256
            && f[14..14 + |bytes|] == bytes && f[14 + |bytes|..] == padding
  {
    var f, bytes := EncodeSessionFrame(snapshot, padding).value, EncodeAll(snapshot);
    FrameParts(SESSION_MAGIC, 4, bytes, padding);
    PackedEnds(|bytes|);
    assert forall i :: 0 <= i < 8 ==> f[i] == f[..8][i];
    assert f[10] == f[10..14][0] && f[11] == f[10..14][1] && f[12] == f[10..14][2] && f[13] == f[10..14][3];
  }
}
