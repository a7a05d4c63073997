/** Query terms, non-overlapping counts and the search score. */
module SearchScore {
  import opened Wrappers

  const MIN_TERM := 2
  const MAX_TERM := 48
  const MAX_TERMS := 8

  // ---- Python's `str.count` and `in` ----

  /** Non-overlapping occurrences, scanning left to right. */
  function Count(s: string, t: string): nat
    requires t != ""
  {
    if |s| < |t| then 0
    else if t <= s then 1 + Count(s[|t|..], t)
    else Count(s[1..], t)
  }

  predicate Contains(s: string, t: string) {
    exists i :: 0 <= i <= |s| && t <= s[i..]
  }

  lemma {:induction false} CountPositive(s: string, t: string)
    requires t != ""
    ensures Count(s, t) > 0 <==> Contains(s, t)
    decreases |s|
  {
    if |s| < |t| {
      assert forall i :: 0 <= i <= |s| ==> |s[i..]| < |t|;
    } else if t <= s {
      assert s[0..] == s;
    } else {
      CountPositive(s[1..], t);
      if Contains(s, t) {
        var i :| 0 <= i <= |s| && t <= s[i..];
        assert s[0..] == s;
        assert s[1..][i - 1..] == s[i..];
      }
      if Contains(s[1..], t) {
        var i :| 0 <= i <= |s[1..]| && t <= s[1..][i..];
        assert s[1..][i..] == s[i + 1..];
      }
    }
  }

  /** Places where the term stands, none overlapping the one before. */
  predicate Places(s: string, t: string, at: seq<nat>) {
    && (forall i :: 0 <= i < |at| ==> at[i] <= |s| && t <= s[at[i]..])
    && forall i :: 0 <= i < |at| - 1 ==> at[i] + |t| <= at[i + 1]
  }

  function Shifted(at: seq<nat>, step: nat): (r: seq<nat>)
    ensures |r| == |at| && forall i :: 0 <= i < |at| ==> r[i] == at[i] + step
  {
    seq(|at|, i requires 0 <= i < |at| => at[i] + step)
  }

  /** Places in a rest of the text are places in the text. */
  lemma ShiftedPlaces(s: string, t: string, step: nat, rest: seq<nat>)
    requires step <= |s| && Places(s[step..], t, rest)
    ensures Places(s, t, Shifted(rest, step))
  {
    var at := Shifted(rest, step);
    forall i | 0 <= i < |at| ensures at[i] <= |s| && t <= s[at[i]..] {
      assert s[step..][rest[i]..] == s[at[i]..];
    }
  }

  lemma PlaceInFront(s: string, t: string, later: seq<nat>)
    requires t <= s && Places(s, t, later) && (later != [] ==> |t| <= later[0])
    ensures Places(s, t, [0] + later)
  {
    assert s[0..] == s;
  }

  /** The count is reached by some choice of places ... */
  lemma {:induction false} CountReached(s: string, t: string) returns (at: seq<nat>)
    requires t != ""
    ensures |at| == Count(s, t) && Places(s, t, at)
    decreases |s|
  {
    if |s| < |t| {
      at := [];
    } else if t <= s {
      var rest := CountReached(s[|t|..], t);
      ShiftedPlaces(s, t, |t|, rest);
      at := [0] + Shifted(rest, |t|);
      PlaceInFront(s, t, Shifted(rest, |t|));
    } else {
      var rest := CountReached(s[1..], t);
      ShiftedPlaces(s, t, 1, rest);
      at := Shifted(rest, 1);
    }
  }

  /** ... and by none exceeded: counting from the left finds as many as there can be. */
  lemma {:induction false} CountIsMost(s: string, t: string, at: seq<nat>)
    requires t != "" && Places(s, t, at)
    ensures |at| <= Count(s, t)
    decreases |s|
  {
    if at != [] {
      assert t <= s[at[0]..];
      var step := if t <= s then |t| else 1;
      var later := if t <= s then at[1..] else at;
      if !(t <= s) {
        assert at[0] != 0 by {
          assert s[0..] == s;
        }
      }
      PlacesAscend(s, t, at);
      var rest := seq(|later|, i requires 0 <= i < |later| => later[i] - step);
      forall i | 0 <= i < |rest| ensures rest[i] <= |s[step..]| && t <= s[step..][rest[i]..] {
        assert s[step..][rest[i]..] == s[later[i]..];
      }
      CountIsMost(s[step..], t, rest);
    }
  }

  lemma {:induction false} PlacesAscend(s: string, t: string, at: seq<nat>)
    requires t != "" && at != [] && Places(s, t, at)
    ensures forall i :: 1 <= i < |at| ==> at[0] + |t| <= at[i]
  {
    if |at| > 1 {
      var front := at[..|at| - 1];
      PlacesAscend(s, t, front);
      assert at[|at| - 2] == front[|at| - 2] && at[|at| - 2] + |t| <= at[|at| - 1];
    }
  }

  /** A term without a space occurs in "title body" only inside one of the two. */
  lemma SpacedPrefix(title: string, body: string, t: string)
    requires t != "" && ' ' !in t
    ensures t <= title + " " + body <==> t <= title
  {
    var s := title + " " + body;
    if |title| < |t| {
      assert s[|title|] == ' ' && t[|title|] in t;
    }
  }

  lemma {:induction false} CountSplits(title: string, body: string, t: string)
    requires t != "" && ' ' !in t
    ensures Count(title + " " + body, t) == Count(title, t) + Count(body, t)
    decreases |title|
  {
    var s := title + " " + body;
    SpacedPrefix(title, body, t);
    if t <= title {
      assert s[|t|..] == title[|t|..] + " " + body;
      CountSplits(title[|t|..], body, t);
    } else if title == "" {
      assert s[1..] == body;
      if |s| < |t| { assert |body| < |t|; }
    } else {
      assert s[1..] == title[1..] + " " + body;
      CountSplits(title[1..], body, t);
      if |title| < |t| { ShortCount(title[1..], t); }
      if |s| < |t| { ShortCount(body, t); }
    }
  }

  lemma ShortCount(s: string, t: string)
    requires t != "" && |s| < |t|
    ensures Count(s, t) == 0
  {
  }

  // ---- The score ----

  function Haystack(title: string, body: string): string {
    title + " " + body
  }

  function TermSum(title: string, haystack: string, terms: seq<string>): nat
    requires "" !in terms
  {
    if terms == [] then 0
    else TermSum(title, haystack, terms[..|terms| - 1])
         + 4 * Count(title, terms[|terms| - 1]) + Count(haystack, terms[|terms| - 1])
  }

  /** None when some term does not occur at all. */
  function Score(title: string, haystack: string, terms: seq<string>): Option<nat>
    requires "" !in terms
  {
    if forall t :: t in terms ==> Contains(haystack, t) then Some(TermSum(title, haystack, terms)) else None
  }

  predicate SearchTerm(t: string) {
    t != "" && ' ' !in t
  }

  predicate SearchTerms(terms: seq<string>) {
    forall i :: 0 <= i < |terms| ==> SearchTerm(terms[i])
  }

  /** The weights the score really gives: five for a title occurrence, one for a body one. */
  function WeightedSum(title: string, body: string, terms: seq<string>): nat
    requires "" !in terms
  {
    if terms == [] then 0
    else WeightedSum(title, body, terms[..|terms| - 1])
         + 5 * Count(title, terms[|terms| - 1]) + Count(body, terms[|terms| - 1])
  }

  lemma {:induction false} TermSumIsWeighted(title: string, body: string, terms: seq<string>)
    requires SearchTerms(terms)
    ensures TermSum(title, Haystack(title, body), terms) == WeightedSum(title, body, terms)
  {
    if terms != [] {
      assert SearchTerm(terms[|terms| - 1]);
      TermSumIsWeighted(title, body, terms[..|terms| - 1]);
      CountSplits(title, body, terms[|terms| - 1]);
    }
  }

  lemma {:induction false} EveryTermCounts(title: string, haystack: string, terms: seq<string>)
    requires "" !in terms
    requires forall t :: t in terms ==> Contains(haystack, t)
    ensures TermSum(title, haystack, terms) >= |terms|
  {
    if terms != [] {
      EveryTermCounts(title, haystack, terms[..|terms| - 1]);
      CountPositive(haystack, terms[|terms| - 1]);
    }
  }

  lemma ContainsSplits(title: string, body: string, t: string)
    requires t != "" && ' ' !in t
    ensures Contains(Haystack(title, body), t) <==> Contains(title, t) || Contains(body, t)
  {
    CountSplits(title, body, t);
    CountPositive(Haystack(title, body), t);
    CountPositive(title, t);
    CountPositive(body, t);
  }

  /** A document matches when each term occurs in its title or its body; its score is then five
      per title occurrence plus one per body occurrence, and at least the number of terms. */
  lemma ScoreMeaning(title: string, body: string, terms: seq<string>)
    requires SearchTerms(terms)
    ensures var score := Score(title, Haystack(title, body), terms);
            && (score.Some? <==> forall t :: t in terms ==> Contains(title, t) || Contains(body, t))
            && (score.Some? ==> score.value == WeightedSum(title, body, terms) && score.value >= |terms|)
  {
    forall t | t in terms
      ensures Contains(Haystack(title, body), t) <==> Contains(title, t) || Contains(body, t)
    {
      ContainsSplits(title, body, t);
    }
    TermSumIsWeighted(title, body, terms);
    if Score(title, Haystack(title, body), terms).Some? {
      EveryTermCounts(title, Haystack(title, body), terms);
    }
  }

  // ---- Query terms ----

  /** The maximal runs of non-space characters, as `split()` returns them. */
  function Words(s: string, current: string): seq<string> {
    if s == "" then (if current == "" then [] else [current])
    else if s[0] == ' ' then (if current == "" then [] else [current]) + Words(s[1..], "")
    else Words(s[1..], current + [s[0]])
  }

  lemma {:induction false} WordsHaveNoSpace(s: string, current: string)
    requires ' ' !in current
    ensures forall w :: w in Words(s, current) ==> ' ' !in w && w != ""
    decreases |s|
  {
    if s != "" {
      if s[0] == ' ' {
        WordsHaveNoSpace(s[1..], "");
      } else {
        WordsHaveNoSpace(s[1..], current + [s[0]]);
      }
    }
  }

  /** Splitting at a space splits the words. */
  lemma {:induction false} WordsOfParts(a: string, b: string, current: string)
    ensures Words(a + " " + b, current) == Words(a, current) + Words(b, "")
    decreases |a|
  {
    if a == "" {
      assert (a + " " + b)[1..] == b;
    } else {
      assert (a + " " + b)[1..] == a[1..] + " " + b;
      WordsOfParts(a[1..], b, if a[0] == ' ' then "" else current + [a[0]]);
    }
  }

  /** And a text without a space is one word, unless it is empty. Together these say what the words of
      any text are: its longest parts without a space, in order. */
  lemma {:induction false} OneWord(w: string, current: string)
    requires ' ' !in w
    ensures Words(w, current) == if current + w == "" then [] else [current + w]
    decreases |w|
  {
    if w == "" {
      assert current + w == current;
    } else {
      assert ' ' !in w[1..];
      OneWord(w[1..], current + [w[0]]);
      assert current + [w[0]] + w[1..] == current + w;
    }
  }

  lemma WordsMean(a: string, b: string, w: string)
    requires ' ' !in w
    ensures Words(a + " " + b, "") == Words(a, "") + Words(b, "")
    ensures Words(w, "") == if w == "" then [] else [w]
  {
    WordsOfParts(a, b, "");
    OneWord(w, "");
    assert "" + w == w;
  }

  predicate TermLength(w: string) {
    MIN_TERM <= |w| <= MAX_TERM
  }

  /** Words of acceptable length, first occurrences only, in order. */
  function Deduplicated(words: seq<string>): (r: seq<string>)
    ensures forall w :: w in r <==> w in words && TermLength(w)
    ensures forall i, j :: 0 <= i < j < |r| ==> r[i] != r[j]
  {
    if words == [] then []
    else
      var last, front := words[|words| - 1], Deduplicated(words[..|words| - 1]);
      assert words == words[..|words| - 1] + [last];
      if TermLength(last) && last !in front then front + [last] else front
  }

  /** `normalized` is the query after case folding and replacement of everything that is neither
      a letter nor a digit by spaces. */
  function QueryTerms(normalized: string): seq<string> {
    var terms := Deduplicated(Words(normalized, ""));
    if |terms| > MAX_TERMS then terms[..MAX_TERMS] else terms
  }

  /** More words only add terms at the end, so terms come in the order their words first do. */
  lemma {:induction false} EarlierWordsFirst(words: seq<string>, more: seq<string>)
    ensures Deduplicated(words) <= Deduplicated(words + more)
  {
    if more == [] {
      assert words + more == words;
    } else {
      var front := more[..|more| - 1];
      EarlierWordsFirst(words, front);
      assert (words + more)[..|words + more| - 1] == words + front;
    }
  }

  lemma QueryTermsSearchable(normalized: string)
    ensures SearchTerms(QueryTerms(normalized)) && |QueryTerms(normalized)| <= 8
    ensures |Deduplicated(Words(normalized, ""))| <= 8 ==> QueryTerms(normalized) == Deduplicated(Words(normalized, ""))
    ensures |Deduplicated(Words(normalized, ""))| > 8 ==> QueryTerms(normalized) == Deduplicated(Words(normalized, ""))[..8]
    ensures forall t :: t in Deduplicated(Words(normalized, "")) <==> t in Words(normalized, "") && 2 <= |t| <= 48
    ensures forall i, j :: 0 <= i < j < |QueryTerms(normalized)| ==> QueryTerms(normalized)[i] != QueryTerms(normalized)[j]
  {
    WordsHaveNoSpace(normalized, "");
    var terms := Deduplicated(Words(normalized, ""));
    assert forall t :: t in QueryTerms(normalized) ==> t in terms;
  }
}
