/** Purposes and file names of the keyset directory. The other modules handle a name by its
    parts; here its text `{purpose}-v{generation}.{kind}.raw` is shown to determine them. */
module KeysetNames {
  import opened Wrappers

  datatype Purpose = ImtSyncCredential | PassServiceSession

  datatype Kind = Private | Public

  /** A file name a manifest may hold: one of the generated ones, or any other text. */
  datatype Name = KeyFile(purpose: Purpose, generation: int, kind: Kind) | OtherFile(text: string)

  const PURPOSES: seq<Purpose> := [ImtSyncCredential, PassServiceSession]
  const KEYSET_FILE := "keyset.json"

  function Label(p: Purpose): string {
    match p
    case ImtSyncCredential => "imt-sync-credential"
    case PassServiceSession => "pass-service-session"
  }

  /** The purpose an operator's argument names; None is the "not in PURPOSES" case. */
  function PurposeOf(text: string): (r: Option<Purpose>)
    ensures r.Some? ==> Label(r.value) == text
    ensures r.None? ==> forall p: Purpose :: Label(p) != text
  {
    if text == Label(ImtSyncCredential) then Some(ImtSyncCredential)
    else if text == Label(PassServiceSession) then Some(PassServiceSession)
    else None
  }

  function DigitChar(d: nat): (c: char)
    requires d < 10
    ensures '0' <= c <= '9' && c as int == '0' as int + d
  {
    ('0' as int + d) as char
  }

  /** Decimal text of a natural number, as Python's f-string prints it. */
  function Decimal(n: nat): (s: string)
    ensures |s| > 0
    ensures forall c | c in s :: '0' <= c <= '9'
  {
    if n < 10 then [DigitChar(n)] else Decimal(n / 10) + [DigitChar(n % 10)]
  }

  function IntText(n: int): string {
    if n < 0 then "-" + Decimal(-n) else Decimal(n)
  }

  function KindText(kind: Kind): string {
    match kind
    case Private => "private"
    case Public => "public"
  }

  function FileText(p: Purpose, generation: int, kind: Kind): string {
    Label(p) + "-v" + IntText(generation) + "." + KindText(kind) + ".raw"
  }

  function DecimalValue(s: string): int {
    if s == "" then 0 else 10 * DecimalValue(s[..|s| - 1]) + (s[|s| - 1] as int - '0' as int)
  }

  lemma {:induction false} DecimalRoundTrip(n: nat)
    ensures DecimalValue(Decimal(n)) == n
  {
    if n < 10 {
      assert Decimal(n)[..0] == "";
    } else {
      DecimalRoundTrip(n / 10);
      assert Decimal(n)[..|Decimal(n)| - 1] == Decimal(n / 10);
    }
  }

  lemma SplitAtFirst(a: string, x: string, b: string, y: string, sep: char)
    requires a + [sep] + x == b + [sep] + y
    requires sep !in a && sep !in b
    ensures a == b && x == y
  {
    var text := a + [sep] + x;
    assert |a| == |b| by {
      assert text[|a|] == sep && forall i :: 0 <= i < |a| ==> text[i] == a[i];
      assert text[|b|] == sep && forall i :: 0 <= i < |b| ==> text[i] == b[i];
    }
    assert a == text[..|a|] == b;
    assert x == text[|a| + 1..] == y;
  }

  /** Every name starts with its purpose, whose first letter tells the two apart. */
  lemma NameHead(p: Purpose, rest: string)
    ensures (Label(p) + rest)[0] == if p.ImtSyncCredential? then 'i' else 'p'
    ensures (Label(p) + rest)[|Label(p)|..] == rest
  {
    assert (Label(p) + rest)[0] == Label(p)[0];
  }

  function Tail(generation: int, kind: Kind): string {
    "-v" + (IntText(generation) + ['.'] + (KindText(kind) + ".raw"))
  }

  lemma NameParts(p: Purpose, g: int, k: Kind)
    ensures FileText(p, g, k) == Label(p) + Tail(g, k)
  {
    SixParts(Label(p), "-v", IntText(g), ['.'], KindText(k), ".raw");
  }

  lemma SixParts(a: string, b: string, c: string, d: string, e: string, f: string)
    ensures a + b + c + d + e + f == a + (b + (c + d + (e + f)))
  {
  }

  lemma TailInjective(g: nat, k: Kind, h: nat, l: Kind)
    requires Tail(g, k) == Tail(h, l)
    ensures g == h && k == l
  {
    var restK, restL := KindText(k) + ".raw", KindText(l) + ".raw";
    assert Tail(g, k)[2..] == Decimal(g) + ['.'] + restK;
    assert Tail(h, l)[2..] == Decimal(h) + ['.'] + restL;
    SplitAtFirst(Decimal(g), restK, Decimal(h), restL, '.');
    DecimalRoundTrip(g);
    DecimalRoundTrip(h);
    assert restK[1] == KindText(k)[1] && restL[1] == KindText(l)[1];
  }

  /** Distinct (purpose, generation, kind) never share a file name. */
  lemma FileTextInjective(p: Purpose, g: nat, k: Kind, q: Purpose, h: nat, l: Kind)
    requires FileText(p, g, k) == FileText(q, h, l)
    ensures p == q && g == h && k == l
  {
    NameParts(p, g, k);
    NameParts(q, h, l);
    NameHead(p, Tail(g, k));
    NameHead(q, Tail(h, l));
    TailInjective(g, k, h, l);
  }

  /** No key file can take the manifest's own name. */
  lemma FileTextIsNotManifest(p: Purpose, g: int, k: Kind)
    ensures FileText(p, g, k) != KEYSET_FILE
  {
    NameParts(p, g, k);
    NameHead(p, Tail(g, k));
  }
}
