/** UTF-8 (section 3 of RFC 3629) as strict text encoding and decoding. Text is a sequence of
    code points that may include surrogates, which cannot be encoded. */
module Utf8 {
  import opened Wrappers

  type Byte = b: int | 0 <= b < 256 witness 0
  type Bytes = seq<Byte>

  type CodePoint = c: int | 0 <= c <= 0x10FFFF witness 0
  type Text = seq<CodePoint>

  predicate Encodable(c: CodePoint) {
    !(0xD800 <= c <= 0xDFFF)
  }

  function EncodeOne(c: CodePoint): (b: Bytes)
    ensures 1 <= |b| <= 4
  {
    if c < 0x80 then [c]
    else if c < 0x800 then [0xC0 + c / 64, 0x80 + c % 64]
    else if c < 0x10000 then [0xE0 + c / 64 / 64, 0x80 + c / 64 % 64, 0x80 + c % 64]
    else [0xF0 + c / 64 / 64 / 64, 0x80 + c / 64 / 64 % 64, 0x80 + c / 64 % 64, 0x80 + c % 64]
  }

  function EncodeAll(t: Text): Bytes {
    if t == [] then [] else EncodeOne(t[0]) + EncodeAll(t[1..])
  }

  /** None where the source's encoder raises: a surrogate in the text. */
  function Encode(t: Text): Option<Bytes> {
    if forall c :: c in t ==> Encodable(c) then Some(EncodeAll(t)) else None
  }

  predicate Tail(b: Byte) {
    0x80 <= b < 0xC0
  }

  /** Six more bits. */
  function Join(high: int, b: Byte): int {
    high * 64 + (b as int - 0x80)
  }

  /** One character at the front: its code point and how many bytes it takes. Overlong forms,
      surrogates and values past the last code point are refused. */
  function DecodeOne(b: Bytes): (r: Option<(CodePoint, nat)>)
    ensures r.Some? ==> 1 <= r.value.1 <= |b|
  {
    if b == [] then None
    else if b[0] < 0x80 then Some((b[0], 1))
    else if b[0] < 0xC2 then None
    else if b[0] < 0xE0 then
      if |b| >= 2 && Tail(b[1]) then Some((Join(b[0] as int - 0xC0, b[1]), 2)) else None
    else if b[0] < 0xF0 then
      if |b| >= 3 && Tail(b[1]) && Tail(b[2])
         && (b[0] == 0xE0 ==> b[1] >= 0xA0) && (b[0] == 0xED ==> b[1] < 0xA0)
      then Some((Join(Join(b[0] as int - 0xE0, b[1]), b[2]), 3)) else None
    else if b[0] < 0xF5 then
      if |b| >= 4 && Tail(b[1]) && Tail(b[2]) && Tail(b[3])
         && (b[0] == 0xF0 ==> b[1] >= 0x90) && (b[0] == 0xF4 ==> b[1] < 0x90)
      then Some((Join(Join(Join(b[0] as int - 0xF0, b[1]), b[2]), b[3]), 4)) else None
    else None
  }

  function Decode(b: Bytes): Option<Text> {
    if b == [] then Some([])
    else
      var first := DecodeOne(b);
      if first.None? then None
      else
        var rest := Decode(b[first.value.1..]);
        if rest.None? then None else Some([first.value.0] + rest.value)
  }

  lemma JoinSplits(high: int, b: Byte)
    requires Tail(b)
    ensures Join(high, b) / 64 == high && Join(high, b) % 64 == b as int - 0x80
  {
  }

  lemma SplitJoins(c: nat)
    ensures Tail(0x80 + c % 64) && Join(c / 64, 0x80 + c % 64) == c
  {
  }

  lemma DecodeEncodedOne(c: CodePoint, rest: Bytes)
    requires Encodable(c)
    ensures DecodeOne(EncodeOne(c) + rest) == Some((c, |EncodeOne(c)|))
  {
    var b, q := EncodeOne(c) + rest, c / 64;
    SplitJoins(c);
    SplitJoins(q);
    SplitJoins(q / 64);
    assert forall i :: 0 <= i < |EncodeOne(c)| ==> b[i] == EncodeOne(c)[i];
  }

  lemma EncodeDecodedOne(b: Bytes)
    requires DecodeOne(b).Some?
    ensures var (c, n) := DecodeOne(b).value; Encodable(c) && EncodeOne(c) == b[..n]
  {
    var (c, n) := DecodeOne(b).value;
    if n == 2 {
      JoinSplits(b[0] as int - 0xC0, b[1]);
    } else if n == 3 {
      var high := b[0] as int - 0xE0;
      JoinSplits(high, b[1]);
      JoinSplits(Join(high, b[1]), b[2]);
    } else if n == 4 {
      var high := b[0] as int - 0xF0;
      JoinSplits(high, b[1]);
      JoinSplits(Join(high, b[1]), b[2]);
      JoinSplits(Join(Join(high, b[1]), b[2]), b[3]);
    }
  }

  lemma {:induction false} DecodeEncoded(t: Text)
    requires forall c :: c in t ==> Encodable(c)
    ensures Decode(EncodeAll(t)) == Some(t)
  {
    if t != [] {
      var first, rest := EncodeOne(t[0]), EncodeAll(t[1..]);
      DecodeEncoded(t[1..]);
      DecodeEncodedOne(t[0], rest);
      assert (first + rest)[|first|..] == rest;
      assert t == [t[0]] + t[1..];
    }
  }

  lemma EncodeStep(c: CodePoint, t: Text)
    requires Encodable(c) && Encode(t).Some?
    ensures Encode([c] + t) == Some(EncodeOne(c) + Encode(t).value)
  {
    assert ([c] + t)[1..] == t;
  }

  lemma {:induction false} EncodeDecoded(b: Bytes)
    requires Decode(b).Some?
    ensures Encode(Decode(b).value) == Some(b)
  {
    if b != [] {
      var (c, n) := DecodeOne(b).value;
      EncodeDecodedOne(b);
      EncodeDecoded(b[n..]);
      var t := Decode(b).value;
      assert t == [c] + Decode(b[n..]).value;
      EncodeStep(c, Decode(b[n..]).value);
      assert b == b[..n] + b[n..];
    }
  }

  /** Encoding and decoding are inverse, both ways, on exactly the texts and byte strings they accept. */
  lemma EncodeIffDecode(t: Text, b: Bytes)
    ensures Encode(t) == Some(b) <==> Decode(b) == Some(t)
  {
    if Encode(t) == Some(b) {
      DecodeEncoded(t);
    }
    if Decode(b) == Some(t) {
      EncodeDecoded(b);
    }
  }

  lemma {:induction false} EncodedLength(t: Text)
    ensures |t| <= |EncodeAll(t)| <= 4 * |t|
  {
    if t != [] {
      EncodedLength(t[1..]);
    }
  }

  /** Distinct texts have distinct encodings. */
  lemma EncodeInjective(t: Text, u: Text)
    requires Encode(t).Some? && Encode(t) == Encode(u)
    ensures t == u
  {
    EncodeIffDecode(t, Encode(t).value);
    EncodeIffDecode(u, Encode(t).value);
  }
}
