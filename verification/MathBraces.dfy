/** The brace check of mathematical source text. */
module MathBraces {

  const MAX_DEPTH := 64

  /** How many backslashes stand immediately before position `i`. */
  function SlashesBefore(text: string, i: nat): nat
    requires i <= |text|
  {
    if i > 0 && text[i - 1] == '\\' then 1 + SlashesBefore(text, i - 1) else 0
  }

  /** The one-pass view of the same question: does the character at `i` stand escaped? */
  function Escaped(text: string, i: nat): bool
    requires i <= |text|
  {
    i > 0 && text[i - 1] == '\\' && !Escaped(text, i - 1)
  }

  lemma {:induction false} RecountAgreesWithFlag(text: string, i: nat)
    requires i <= |text|
    ensures SlashesBefore(text, i) % 2 == 1 <==> Escaped(text, i)
  {
    if i > 0 && text[i - 1] == '\\' {
      RecountAgreesWithFlag(text, i - 1);
    }
  }

  datatype Brace = Open | Close

  /** The unescaped braces of the first `n` characters, in order. */
  function Braces(text: string, n: nat): (w: seq<Brace>)
    requires n <= |text|
  {
    if n == 0 then []
    else
      var rest := Braces(text, n - 1);
      if Escaped(text, n - 1) then rest
      else if text[n - 1] == '{' then rest + [Open]
      else if text[n - 1] == '}' then rest + [Close]
      else rest
  }

  function Depth(w: seq<Brace>): int {
    if w == [] then 0
    else Depth(w[..|w| - 1]) + (if w[|w| - 1].Open? then 1 else -1)
  }

  /** Every prefix stays between zero and the limit. */
  predicate Bounded(w: seq<Brace>) {
    forall k :: 0 <= k <= |w| ==> 0 <= Depth(w[..k]) <= MAX_DEPTH
  }

  // ---- Well-nested words, as forests of groups ----

  datatype Forest = Empty | Group(inside: Forest, rest: Forest)

  function Render(f: Forest): seq<Brace> {
    match f
    case Empty => []
    case Group(inside, rest) => [Open] + Render(inside) + [Close] + Render(rest)
  }

  function Height(f: Forest): nat {
    match f
    case Empty => 0
    case Group(inside, rest) => if 1 + Height(inside) > Height(rest) then 1 + Height(inside) else Height(rest)
  }

  /** A word is a balanced word of nesting depth at most the limit. */
  ghost predicate Balanced(w: seq<Brace>) {
    exists f :: Render(f) == w && Height(f) <= MAX_DEPTH
  }

  lemma {:induction false} DepthAppend(v: seq<Brace>, w: seq<Brace>)
    ensures Depth(v + w) == Depth(v) + Depth(w)
  {
    if w == [] {
      assert v + w == v;
    } else {
      DepthAppend(v, w[..|w| - 1]);
      assert (v + w)[..|v + w| - 1] == v + w[..|w| - 1];
    }
  }

  /** The running depth of a word that starts at depth `d`. */
  predicate BoundedFrom(d: int, w: seq<Brace>)
    decreases |w|
  {
    && 0 <= d <= MAX_DEPTH
    && (w != [] ==> BoundedFrom(d + (if w[0].Open? then 1 else -1), w[1..]))
  }

  lemma {:induction false} BoundedFromPrefix(d: int, w: seq<Brace>)
    ensures BoundedFrom(d, w) <==> forall k :: 0 <= k <= |w| ==> 0 <= d + Depth(w[..k]) <= MAX_DEPTH
    decreases |w|
  {
    if w == [] {
      assert w[..0] == [];
    } else {
      var step := if w[0].Open? then 1 else -1;
      BoundedFromPrefix(d + step, w[1..]);
      forall k | 0 <= k < |w| ensures Depth(w[..k + 1]) == step + Depth(w[1..][..k]) {
        assert w[..k + 1] == [w[0]] + w[1..][..k];
        DepthAppend([w[0]], w[1..][..k]);
      }
      assert w[..0] == [];
      assert forall k :: 1 <= k <= |w| ==> Depth(w[..k]) == step + Depth(w[1..][..k - 1]);
      if BoundedFrom(d, w) {
        forall k | 0 <= k <= |w| ensures 0 <= d + Depth(w[..k]) <= MAX_DEPTH { }
      }
      if forall k :: 0 <= k <= |w| ==> 0 <= d + Depth(w[..k]) <= MAX_DEPTH {
        assert 0 <= d + Depth(w[..0]) <= MAX_DEPTH;
        forall k | 0 <= k <= |w[1..]| ensures 0 <= d + step + Depth(w[1..][..k]) <= MAX_DEPTH {
          assert Depth(w[..k + 1]) == step + Depth(w[1..][..k]);
        }
      }
    }
  }

  /** `R(f0) } R(f1) } ... R(fd)`: what remains to be read at depth `d`. */
  function RenderAll(fs: seq<Forest>): seq<Brace> {
    if fs == [] then []
    else if |fs| == 1 then Render(fs[0])
    else Render(fs[0]) + [Close] + RenderAll(fs[1..])
  }

  predicate Fits(fs: seq<Forest>, d: int) {
    forall i :: 0 <= i < |fs| ==> Height(fs[i]) + d - i <= MAX_DEPTH
  }

  /** An opener joins the first two forests of the row into one group. */
  lemma OpenRow(gs: seq<Forest>, d: nat)
    requires |gs| == d + 2 && Fits(gs, d + 1)
    ensures var fs := [Group(gs[0], gs[1])] + gs[2..];
            |fs| == d + 1 && RenderAll(fs) == [Open] + RenderAll(gs) && Fits(fs, d)
  {
    var fs := [Group(gs[0], gs[1])] + gs[2..];
    assert gs[1..][1..] == gs[2..] == fs[1..];
    if d == 0 {
      assert RenderAll(gs[1..]) == Render(gs[1]);
    } else {
      assert RenderAll(gs[1..]) == Render(gs[1]) + [Close] + RenderAll(gs[2..]);
    }
    assert RenderAll(fs) == [Open] + RenderAll(gs);
    assert forall i :: 1 <= i < |fs| ==> fs[i] == gs[i + 1];
  }

  /** A closer puts an empty forest in front of the row. */
  lemma CloseRow(gs: seq<Forest>, d: nat)
    requires d >= 1 && |gs| == d && Fits(gs, d - 1) && d <= MAX_DEPTH
    ensures var fs := [Empty] + gs;
            |fs| == d + 1 && RenderAll(fs) == [Close] + RenderAll(gs) && Fits(fs, d)
  {
    var fs := [Empty] + gs;
    assert fs[1..] == gs;
    assert forall i :: 1 <= i < |fs| ==> fs[i] == gs[i - 1];
  }

  lemma FirstBrace(w: seq<Brace>)
    requires w != []
    ensures w == [w[0]] + w[1..]
    ensures Depth(w) == (if w[0].Open? then 1 else -1) + Depth(w[1..])
  {
    assert w == [w[0]] + w[1..];
    DepthAppend([w[0]], w[1..]);
    assert [w[0]][..0] == [];
  }

  /** Parsing: a bounded word that returns to zero is a row of forests separated by closers. */
  lemma {:induction false} Parse(d: nat, w: seq<Brace>) returns (fs: seq<Forest>)
    requires BoundedFrom(d, w) && d + Depth(w) == 0
    ensures |fs| == d + 1 && RenderAll(fs) == w && Fits(fs, d)
    decreases |w|
  {
    if w == [] {
      fs := [Empty];
    } else {
      FirstBrace(w);
      if w[0].Open? {
        var gs := Parse(d + 1, w[1..]);
        OpenRow(gs, d);
        fs := [Group(gs[0], gs[1])] + gs[2..];
      } else {
        assert BoundedFrom(d - 1, w[1..]);
        var gs := Parse(d - 1, w[1..]);
        CloseRow(gs, d);
        fs := [Empty] + gs;
      }
    }
  }

  lemma {:induction false} RenderDepth(f: Forest)
    ensures Depth(Render(f)) == 0
  {
    if f.Group? {
      RenderDepth(f.inside);
      RenderDepth(f.rest);
      DepthAppend([Open] + Render(f.inside) + [Close], Render(f.rest));
      DepthAppend([Open] + Render(f.inside), [Close]);
      DepthAppend([Open], Render(f.inside));
      assert [Open][..0] == [] && [Close][..0] == [];
    }
  }

  /** Rendering: a forest read from depth `d` stays within `d` and `d + Height`, and comes back to `d`. */
  lemma {:induction false} RenderBounded(f: Forest, d: nat, after: seq<Brace>)
    requires d + Height(f) <= MAX_DEPTH
    requires BoundedFrom(d, after)
    ensures BoundedFrom(d, Render(f) + after)
    decreases f
  {
    match f
    case Empty => assert Render(f) + after == after;
    case Group(inside, rest) =>
      RenderBounded(rest, d, after);
      var closing := [Close] + (Render(rest) + after);
      OneBrace(Close, d + 1, Render(rest) + after, closing);
      RenderBounded(inside, d + 1, closing);
      GroupRendered(inside, rest, after);
      OneBrace(Open, d, Render(inside) + closing, Render(f) + after);
  }

  lemma GroupRendered(inside: Forest, rest: Forest, after: seq<Brace>)
    ensures Render(Group(inside, rest)) + after == [Open] + (Render(inside) + ([Close] + (Render(rest) + after)))
  {
  }

  lemma OneBrace(b: Brace, d: nat, w: seq<Brace>, word: seq<Brace>)
    requires d <= MAX_DEPTH && BoundedFrom(d + (if b.Open? then 1 else -1), w) && word == [b] + w
    ensures BoundedFrom(d, word)
  {
    assert word[1..] == w;
  }

  /** Bounded prefixes with total depth zero are exactly the balanced words. */
  lemma BoundedIffBalanced(w: seq<Brace>)
    ensures Bounded(w) && Depth(w) == 0 <==> Balanced(w)
  {
    BoundedFromPrefix(0, w);
    assert Bounded(w) <==> BoundedFrom(0, w) by {
      assert forall k :: 0 <= k <= |w| ==> 0 + Depth(w[..k]) == Depth(w[..k]);
    }
    if Bounded(w) && Depth(w) == 0 {
      var fs := Parse(0, w);
      assert Render(fs[0]) == w && Height(fs[0]) <= MAX_DEPTH;
    }
    if Balanced(w) {
      var f :| Render(f) == w && Height(f) <= MAX_DEPTH;
      RenderBounded(f, 0, []);
      RenderDepth(f);
      assert Render(f) + [] == w;
    }
  }

  /** The inner loop: walk back from `index` while there are backslashes. */
  method PrecedingSlashes(text: string, index: nat) returns (slashes: nat)
    requires index < |text|
    ensures slashes == SlashesBefore(text, index)
    ensures slashes % 2 == 1 <==> Escaped(text, index)
  {
    slashes := 0;
    var cursor := index - 1;
    while cursor >= 0 && text[cursor] == '\\'
      invariant -1 <= cursor < index
      invariant slashes + SlashesBefore(text, cursor + 1) == SlashesBefore(text, index)
    {
      slashes := slashes + 1;
      cursor := cursor - 1;
    }
    RecountAgreesWithFlag(text, index);
  }

  /** The source's loop: at each index the backslashes are recounted backwards. */
  method ValidateMathSource(text: string) returns (ok: bool)
    ensures ok <==> Balanced(Braces(text, |text|))
  {
    var depth := 0;
    var index := 0;
    while index < |text|
      invariant 0 <= index <= |text|
      invariant depth == Depth(Braces(text, index))
      invariant Bounded(Braces(text, index))
    {
      var slashes := PrecedingSlashes(text, index);
      BracesStep(text, index);
      if slashes % 2 == 0 {
        if text[index] == '{' {
          depth := depth + 1;
          if depth > MAX_DEPTH {
            UnboundedStays(text, index + 1);
            return false;
          }
        } else if text[index] == '}' {
          depth := depth - 1;
          if depth < 0 {
            UnboundedStays(text, index + 1);
            return false;
          }
        }
      }
      index := index + 1;
    }
    BoundedIffBalanced(Braces(text, |text|));
    ok := depth == 0;
  }

  /** Reading one more character adds at most one brace. */
  lemma BracesStep(text: string, i: nat)
    requires i < |text|
    ensures var v, w := Braces(text, i), Braces(text, i + 1);
            && v <= w
            && Depth(w) == Depth(v) + (if Escaped(text, i) then 0
                                       else if text[i] == '{' then 1 else if text[i] == '}' then -1 else 0)
            && (Bounded(w) <==> Bounded(v) && 0 <= Depth(w) <= MAX_DEPTH)
  {
    var v, w := Braces(text, i), Braces(text, i + 1);
    assert w[..|v|] == v;
    assert forall k :: 0 <= k <= |v| ==> w[..k] == v[..k];
    assert w[..|w|] == w;
    assert v[..|v|] == v;
  }

  lemma {:induction false} UnboundedStays(text: string, i: nat)
    requires i <= |text| && !Bounded(Braces(text, i))
    ensures !Balanced(Braces(text, |text|))
    decreases |text| - i
  {
    if i == |text| {
      BoundedIffBalanced(Braces(text, i));
    } else {
      BracesStep(text, i);
      UnboundedStays(text, i + 1);
    }
  }
}
