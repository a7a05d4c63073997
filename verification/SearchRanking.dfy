/** Search over a snapshot: filtering, scoring, bounded ranking, and what results may reveal. */
module SearchRanking {
  import opened Wrappers
  import opened BundleModel
  import opened CodePointOrder
  import opened CatalogGraph
  import opened LearningBundle
  import opened SearchScore

  const MAX_LIMIT := 50
  const MAX_QUERY := 120

  // ---- Candidates and their order ----

  datatype SearchDocument = SearchDocument(
    id: Id, catalogNodeId: Id, targetId: Id, audienceIds: set<Id>, title: string, body: string)

  datatype Prepared = Prepared(
    document: SearchDocument, normalizedTitle: string, normalizedHaystack: string,
    entityType: NodeKind, ancestry: Ancestry, difficulty: Option<string>)

  datatype SearchResult = SearchResult(
    entityId: Id, catalogNodeId: Id, entityType: NodeKind, title: string, ancestry: Ancestry, difficulty: Option<string>)

  datatype Candidate = Candidate(score: nat, id: Id, result: SearchResult)

  /** The sort key is (-score, id). */
  predicate Before(a: Candidate, b: Candidate) {
    a.score > b.score || (a.score == b.score && LexLess(a.id, b.id))
  }

  lemma BeforeTransitive(a: Candidate, b: Candidate, c: Candidate)
    requires Before(a, b) && Before(b, c)
    ensures Before(a, c)
  {
    if a.score == b.score == c.score { LexTransitive(a.id, b.id, c.id); }
  }

  lemma BeforeConnected(a: Candidate, b: Candidate)
    requires a.id != b.id
    ensures Before(a, b) || Before(b, a)
    ensures !(Before(a, b) && Before(b, a))
  {
    LexConnected(a.id, b.id);
    if Before(a, b) && Before(b, a) {
      LexTransitive(a.id, b.id, a.id);
      LexIrreflexive(a.id);
    }
  }

  predicate Ranked(s: seq<Candidate>) {
    forall i, j :: 0 <= i < j < |s| ==> Before(s[i], s[j])
  }

  predicate UniqueIds(s: seq<Candidate>) {
    forall i, j :: 0 <= i < j < |s| ==> s[i].id != s[j].id
  }

  function Insert(c: Candidate, s: seq<Candidate>): (r: seq<Candidate>)
    ensures |r| == |s| + 1
  {
    if s == [] then [c] else if Before(c, s[0]) then [c] + s else [s[0]] + Insert(c, s[1..])
  }

  function Sort(s: seq<Candidate>): (r: seq<Candidate>)
    ensures |r| == |s|
  {
    if s == [] then [] else Insert(s[|s| - 1], Sort(s[..|s| - 1]))
  }

  function Take<T>(s: seq<T>, k: nat): seq<T> {
    if |s| <= k then s else s[..k]
  }

  lemma {:induction false} InsertMembers(c: Candidate, s: seq<Candidate>)
    ensures forall x :: x in Insert(c, s) <==> x == c || x in s
  {
    if s != [] && !Before(c, s[0]) {
      InsertMembers(c, s[1..]);
      assert s == [s[0]] + s[1..];
    }
  }

  lemma {:induction false} InsertRanked(c: Candidate, s: seq<Candidate>)
    requires Ranked(s) && forall x :: x in s ==> x.id != c.id
    ensures Ranked(Insert(c, s))
  {
    if s != [] {
      BeforeConnected(c, s[0]);
      if Before(c, s[0]) {
        forall i | 0 < i < |s| ensures Before(c, s[i]) { BeforeTransitive(c, s[0], s[i]); }
      } else {
        InsertRanked(c, s[1..]);
        InsertMembers(c, s[1..]);
        var r := Insert(c, s[1..]);
        forall i | 0 <= i < |r| ensures Before(s[0], r[i]) {
          assert r[i] in r;
          if r[i] != c {
            var j :| 0 <= j < |s[1..]| && s[1..][j] == r[i];
            assert s[j + 1] == r[i];
          }
        }
      }
    }
  }

  lemma {:induction false} SortMeaning(s: seq<Candidate>)
    ensures forall x :: x in Sort(s) <==> x in s
    ensures UniqueIds(s) ==> Ranked(Sort(s))
  {
    if s != [] {
      var front, last := s[..|s| - 1], s[|s| - 1];
      SortMeaning(front);
      InsertMembers(last, Sort(front));
      assert s == front + [last];
      if UniqueIds(s) {
        forall x | x in Sort(front) ensures x.id != last.id {
          var i :| 0 <= i < |front| && front[i] == x;
          assert s[i] == x;
        }
        InsertRanked(last, Sort(front));
      }
    }
  }

  /** A ranking is determined by its members. */
  lemma {:induction false} RankedUnique(s: seq<Candidate>, t: seq<Candidate>)
    requires Ranked(s) && Ranked(t)
    requires forall x :: x in s <==> x in t
    ensures s == t
  {
    if s == [] {
      assert |t| == 0 by { assert forall i :: 0 <= i < |t| ==> t[i] in t; }
    } else {
      assert s[0] in t;
      assert t != [] && t[0] in s;
      if s[0] != t[0] {
        FirstIsFirst(s, t[0]);
        FirstIsFirst(t, s[0]);
        NeverBoth(s[0], t[0]);
        assert false;
      }
      forall x ensures x in s[1..] <==> x in t[1..] {
        if x in s[1..] { TailMember(s, x); }
        if x in t[1..] { TailMember(t, x); }
        assert s == [s[0]] + s[1..] && t == [t[0]] + t[1..];
      }
      RankedUnique(s[1..], t[1..]);
      assert s == [s[0]] + s[1..] && t == [t[0]] + t[1..];
    }
  }

  lemma FirstIsFirst(s: seq<Candidate>, x: Candidate)
    requires Ranked(s) && s != [] && x in s && x != s[0]
    ensures Before(s[0], x)
  {
  }

  lemma NeverBoth(a: Candidate, b: Candidate)
    ensures !(Before(a, b) && Before(b, a))
  {
    if Before(a, b) && Before(b, a) {
      LexTransitive(a.id, b.id, a.id);
      LexIrreflexive(a.id);
    }
  }

  lemma TailMember(s: seq<Candidate>, x: Candidate)
    requires Ranked(s) && s != [] && x in s[1..]
    ensures x in s && x != s[0]
  {
    var i :| 0 <= i < |s[1..]| && s[1..][i] == x;
    assert s[i + 1] == x && Before(s[0], x);
    NeverBoth(x, x);
  }

  /** Keeping only the best `k` while inserting loses nothing of the best `k`. */
  lemma {:induction false} InsertBounded(c: Candidate, s: seq<Candidate>, k: nat)
    ensures Take(Insert(c, s), k) == Take(Insert(c, Take(s, k)), k)
  {
    if k > 0 && |s| > k {
      var head, tail := s[0], s[1..];
      assert s == [head] + tail;
      TakeFirst(head, tail, k);
      if Before(c, head) {
        TakeFirst(c, s, k);
        TakeFirst(c, Take(s, k), k);
      } else {
        InsertBounded(c, tail, k - 1);
        InsertAfter(c, head, tail);
        InsertAfter(c, head, Take(tail, k - 1));
        TakeFirst(head, Insert(c, tail), k);
        TakeFirst(head, Insert(c, Take(tail, k - 1)), k);
      }
    }
  }

  lemma TakeFirst<T>(x: T, s: seq<T>, k: nat)
    requires k > 0
    ensures Take([x] + s, k) == [x] + Take(s, k - 1)
    ensures Take(Take(s, k), k - 1) == Take(s, k - 1)
  {
  }

  lemma InsertAfter(c: Candidate, head: Candidate, tail: seq<Candidate>)
    requires !Before(c, head)
    ensures Insert(c, [head] + tail) == [head] + Insert(c, tail)
  {
    assert ([head] + tail)[1..] == tail;
  }

  // ---- Matching documents ----

  datatype Filters = Filters(
    entityTypes: set<NodeKind>, ueId: Option<Id>, moduleId: Option<Id>, semester: Option<Id>, difficulty: Option<string>)

  predicate Passes(wanted: Option<Id>, actual: Option<Id>) {
    wanted.None? || actual == wanted
  }

  predicate Selected(p: Prepared, audience: Id, f: Filters) {
    && audience in p.document.audienceIds
    && (f.entityTypes == {} || p.entityType in f.entityTypes)
    && Passes(f.ueId, p.ancestry.ueId) && Passes(f.moduleId, p.ancestry.moduleId)
    && Passes(f.semester, p.ancestry.semester) && Passes(f.difficulty, p.difficulty)
  }

  function ResultOf(p: Prepared): SearchResult {
    SearchResult(p.document.targetId, p.document.catalogNodeId, p.entityType, p.document.title, p.ancestry, p.difficulty)
  }

  function CandidateOf(p: Prepared, audience: Id, f: Filters, terms: seq<string>): Option<Candidate>
    requires "" !in terms
  {
    if !Selected(p, audience, f) then None
    else
      var score := Score(p.normalizedTitle, p.normalizedHaystack, terms);
      if score.None? then None else Some(Candidate(score.value, p.document.id, ResultOf(p)))
  }

  function Candidates(ps: seq<Prepared>, audience: Id, f: Filters, terms: seq<string>): seq<Candidate>
    requires "" !in terms
  {
    if ps == [] then []
    else
      var c := CandidateOf(ps[|ps| - 1], audience, f, terms);
      Candidates(ps[..|ps| - 1], audience, f, terms) + (if c.None? then [] else [c.value])
  }

  predicate UniqueDocuments(ps: seq<Prepared>) {
    forall i, j :: 0 <= i < j < |ps| ==> ps[i].document.id != ps[j].document.id
  }

  lemma {:induction false} CandidatesAre(ps: seq<Prepared>, audience: Id, f: Filters, terms: seq<string>)
    requires "" !in terms
    ensures forall c :: c in Candidates(ps, audience, f, terms) <==>
              exists i :: 0 <= i < |ps| && CandidateOf(ps[i], audience, f, terms) == Some(c)
    ensures UniqueDocuments(ps) ==> UniqueIds(Candidates(ps, audience, f, terms))
  {
    if ps != [] {
      var front, last := ps[..|ps| - 1], ps[|ps| - 1];
      CandidatesAre(front, audience, f, terms);
      var cs, all := Candidates(front, audience, f, terms), Candidates(ps, audience, f, terms);
      var c := CandidateOf(last, audience, f, terms);
      assert forall i :: 0 <= i < |front| ==> front[i] == ps[i];
      forall x ensures x in all <==> exists i :: 0 <= i < |ps| && CandidateOf(ps[i], audience, f, terms) == Some(x) {
        assert x in all <==> x in cs || c == Some(x);
      }
      if UniqueDocuments(ps) && c.Some? {
        forall k | 0 <= k < |cs| ensures cs[k].id != c.value.id {
          assert cs[k] in cs;
          var i :| 0 <= i < |front| && CandidateOf(front[i], audience, f, terms) == Some(cs[k]);
          assert ps[i].document.id != last.document.id;
        }
      }
    }
  }

  /** A document the caller asked for and may see: of the audience, with every filter given, and
      holding every term. */
  ghost predicate Wanted(p: Prepared, audience: Id, f: Filters, terms: seq<string>) {
    && audience in p.document.audienceIds
    && (f.entityTypes != {} ==> p.entityType in f.entityTypes)
    && (f.ueId.Some? ==> p.ancestry.ueId == f.ueId)
    && (f.moduleId.Some? ==> p.ancestry.moduleId == f.moduleId)
    && (f.semester.Some? ==> p.ancestry.semester == f.semester)
    && (f.difficulty.Some? ==> p.difficulty == f.difficulty)
    && forall t :: t in terms ==> Contains(p.normalizedHaystack, t)
  }

  /** The candidate of a document: its id and data, and four times each term's count in the title plus
      its count in title and body. */
  ghost predicate Describes(c: Candidate, p: Prepared, terms: seq<string>)
    requires "" !in terms
  {
    && c.id == p.document.id
    && c.score == TermSum(p.normalizedTitle, p.normalizedHaystack, terms)
    && c.result.entityId == p.document.targetId && c.result.catalogNodeId == p.document.catalogNodeId
    && c.result.entityType == p.entityType && c.result.title == p.document.title
    && c.result.ancestry == p.ancestry && c.result.difficulty == p.difficulty
  }

  /** The candidates are exactly the documents wanted. */
  lemma CandidatesAreWanted(ps: seq<Prepared>, audience: Id, f: Filters, terms: seq<string>, c: Candidate)
    requires "" !in terms
    ensures c in Candidates(ps, audience, f, terms)
       <==> exists i :: 0 <= i < |ps| && Wanted(ps[i], audience, f, terms) && Describes(c, ps[i], terms)
  {
    CandidatesAre(ps, audience, f, terms);
    forall i | 0 <= i < |ps|
      ensures CandidateOf(ps[i], audience, f, terms) == Some(c)
         <==> Wanted(ps[i], audience, f, terms) && Describes(c, ps[i], terms)
    {
      CandidateIsWanted(ps[i], audience, f, terms, c);
    }
  }

  lemma CandidateIsWanted(p: Prepared, audience: Id, f: Filters, terms: seq<string>, c: Candidate)
    requires "" !in terms
    ensures CandidateOf(p, audience, f, terms) == Some(c)
       <==> Wanted(p, audience, f, terms) && Describes(c, p, terms)
  {
  }

  // ---- Search ----

  datatype SearchError = LimitInvalid | QueryTooLong | Unavailable

  function Best(ps: seq<Prepared>, audience: Id, f: Filters, terms: seq<string>, limit: nat): seq<Candidate>
    requires "" !in terms
  {
    Take(Sort(Candidates(ps, audience, f, terms)), limit)
  }

  function Results(cs: seq<Candidate>): seq<SearchResult> {
    seq(|cs|, i requires 0 <= i < |cs| => cs[i].result)
  }

  /** `normalize` folds case and replaces everything but letters and digits by spaces;
      `slotFree` says whether one of the concurrent search slots could be taken. */
  method Search(
    ps: seq<Prepared>, audience: Id, query: string, normalize: string -> string, slotFree: bool,
    limit: int, f: Filters) returns (r: Result<seq<SearchResult>, SearchError>)
    ensures !(1 <= limit <= MAX_LIMIT) ==> r == Err(LimitInvalid)
    ensures 1 <= limit <= MAX_LIMIT && |query| > MAX_QUERY ==> r == Err(QueryTooLong)
    ensures 1 <= limit <= MAX_LIMIT && |query| <= MAX_QUERY ==>
              var terms := QueryTerms(normalize(query));
              && "" !in terms
              && r == (if terms == [] then Ok([]) else if !slotFree then Err(Unavailable)
                       else Ok(Results(Best(ps, audience, f, terms, limit))))
  {
    if !(1 <= limit <= MAX_LIMIT) {
      return Err(LimitInvalid);
    }
    if |query| > MAX_QUERY {
      return Err(QueryTooLong);
    }
    var terms := QueryTerms(normalize(query));
    QueryTermsSearchable(normalize(query));
    NoEmptyTerm(terms);
    if terms == [] {
      return Ok([]);
    }
    if !slotFree {
      return Err(Unavailable);
    }
    var best := TopCandidates(ps, audience, f, terms, limit);
    r := Ok(Results(best));
  }

  lemma NoEmptyTerm(terms: seq<string>)
    requires SearchTerms(terms)
    ensures "" !in terms
  {
    forall i | 0 <= i < |terms| ensures terms[i] != "" { assert SearchTerm(terms[i]); }
  }

  /** One pass over the documents, keeping the best `limit` seen so far. */
  method TopCandidates(ps: seq<Prepared>, audience: Id, f: Filters, terms: seq<string>, limit: nat)
    returns (best: seq<Candidate>)
    requires "" !in terms
    ensures best == Best(ps, audience, f, terms, limit)
  {
    best := [];
    var i := 0;
    while i < |ps|
      invariant 0 <= i <= |ps|
      invariant best == Best(ps[..i], audience, f, terms, limit)
    {
      assert ps[..i + 1][..i] == ps[..i];
      var c := CandidateOf(ps[i], audience, f, terms);
      ghost var seen := Candidates(ps[..i], audience, f, terms);
      assert ps[..i + 1][|ps[..i + 1]| - 1] == ps[i] && seen + [] == seen;
      if c.Some? {
        assert (seen + [c.value])[..|seen|] == seen;
        InsertBounded(c.value, Sort(seen), limit);
        best := Take(Insert(c.value, best), limit);
      }
      i := i + 1;
    }
    assert ps[..i] == ps;
  }

  // ---- What the ranking is ----

  /** The first min(limit, matches) of all matches: in order, all of them matches, and nothing
      left out comes before anything kept. */
  lemma BestIsTop(ps: seq<Prepared>, audience: Id, f: Filters, terms: seq<string>, limit: nat)
    requires "" !in terms && UniqueDocuments(ps)
    ensures var all, best := Candidates(ps, audience, f, terms), Best(ps, audience, f, terms, limit);
            && |best| == (if |all| < limit then |all| else limit)
            && Ranked(best)
            && (forall c :: c in best ==> c in all)
            && (forall c, b :: c in all && c !in best && b in best ==> Before(b, c))
  {
    var all := Candidates(ps, audience, f, terms);
    var sorted, best := Sort(all), Best(ps, audience, f, terms, limit);
    CandidatesAre(ps, audience, f, terms);
    SortMeaning(all);
    forall c, b | c in all && c !in best && b in best ensures Before(b, c) {
      assert c in sorted;
      var i :| 0 <= i < |sorted| && sorted[i] == c;
      var j :| 0 <= j < |best| && best[j] == b;
      assert forall k :: 0 <= k < |best| ==> sorted[k] == best[k] && best[k] in best;
    }
  }

  /** The order of the index does not matter. */
  lemma BestIgnoresOrder(
    ps: seq<Prepared>, qs: seq<Prepared>, audience: Id, f: Filters, terms: seq<string>, limit: nat)
    requires "" !in terms && UniqueDocuments(ps) && UniqueDocuments(qs)
    requires forall p :: p in ps <==> p in qs
    ensures Best(ps, audience, f, terms, limit) == Best(qs, audience, f, terms, limit)
  {
    var cs, ds := Candidates(ps, audience, f, terms), Candidates(qs, audience, f, terms);
    CandidatesAre(ps, audience, f, terms);
    CandidatesAre(qs, audience, f, terms);
    forall c ensures c in cs <==> c in ds {
      if c in cs {
        var i :| 0 <= i < |ps| && CandidateOf(ps[i], audience, f, terms) == Some(c);
        assert ps[i] in qs;
      }
      if c in ds {
        var i :| 0 <= i < |qs| && CandidateOf(qs[i], audience, f, terms) == Some(c);
        assert qs[i] in ps;
      }
    }
    SortMeaning(cs);
    SortMeaning(ds);
    RankedUnique(Sort(cs), Sort(ds));
  }

  /** A smaller limit gives a prefix of a larger one. */
  lemma SmallerLimitIsPrefix(ps: seq<Prepared>, audience: Id, f: Filters, terms: seq<string>, k: nat, l: nat)
    requires "" !in terms && k <= l
    ensures Best(ps, audience, f, terms, k) <= Best(ps, audience, f, terms, l)
    ensures Results(Best(ps, audience, f, terms, k)) <= Results(Best(ps, audience, f, terms, l))
  {
    var a, b := Best(ps, audience, f, terms, k), Best(ps, audience, f, terms, l);
    assert a == b[..|a|];
    assert Results(a) == Results(b)[..|a|];
  }

  // ---- The index and its preparation ----

  function ExpectedTarget(n: CatalogNode): Id {
    if n.contentId.Some? then n.contentId.value else if n.sourceId.Some? then n.sourceId.value else n.id
  }

  predicate DocumentAccepted(m: Manifest, d: SearchDocument) {
    && d.catalogNodeId in NodeById(m)
    && var n := NodeById(m)[d.catalogNodeId];
    && d.audienceIds == n.audienceIds
    && d.targetId == ExpectedTarget(n)
    && (m.schemaVersion == 3 ==> d.title == n.title)
    && (n.contentId.Some? ==>
          n.contentId.value in ContentById(m) && d.audienceIds == ContentById(m)[n.contentId.value].audienceIds)
  }

  function DocumentId(d: SearchDocument): Id { d.id }

  predicate IndexAccepted(m: Manifest, documents: seq<SearchDocument>) {
    Unique(documents, DocumentId) && forall d :: d in documents ==> DocumentAccepted(m, d)
  }

  function PreparedOf(d: SearchDocument, n: CatalogNode, a: Ancestry, normalize: string -> string): Prepared {
    Prepared(d, normalize(d.title), Haystack(normalize(d.title), normalize(d.body)), n.kind, a, n.difficulty)
  }

  /** A document with its node's kind and the nearest ue, module and semester above it. */
  ghost predicate IsPrepared(nodes: Nodes, d: SearchDocument, normalize: string -> string, p: Prepared)
    requires Acyclic(nodes)
  {
    && d.catalogNodeId in nodes
    && p == PreparedOf(d, nodes[d.catalogNodeId], AncestryOf(nodes, d.catalogNodeId), normalize)
  }

  ghost predicate AllPrepared(nodes: Nodes, documents: seq<SearchDocument>, normalize: string -> string, ps: seq<Prepared>)
    requires Acyclic(nodes)
  {
    |ps| == |documents| && forall i :: 0 <= i < |ps| ==> IsPrepared(nodes, documents[i], normalize, ps[i])
  }

  ghost predicate PreparedFrom(m: Manifest, documents: seq<SearchDocument>, normalize: string -> string, ps: seq<Prepared>)
    requires Accepted(m)
  {
    AllPrepared(NodeById(m), documents, normalize, ps)
  }

  lemma DocumentsHaveNodes(m: Manifest, documents: seq<SearchDocument>)
    requires IndexAccepted(m, documents)
    ensures forall i :: 0 <= i < |documents| ==> documents[i].catalogNodeId in NodeById(m)
  {
    forall i | 0 <= i < |documents| ensures documents[i].catalogNodeId in NodeById(m) {
      assert DocumentAccepted(m, documents[i]);
    }
  }

  lemma PreparedUnique(nodes: Nodes, documents: seq<SearchDocument>, normalize: string -> string, ps: seq<Prepared>)
    requires Acyclic(nodes) && Unique(documents, DocumentId) && AllPrepared(nodes, documents, normalize, ps)
    ensures UniqueDocuments(ps)
  {
    forall k | 0 <= k < |ps| ensures ps[k].document == documents[k] {
      assert IsPrepared(nodes, documents[k], normalize, ps[k]);
    }
  }

  method PrepareAll(
    nodes: Nodes, ancestry: map<Id, Ancestry>, documents: seq<SearchDocument>, normalize: string -> string)
    returns (ps: seq<Prepared>)
    requires Acyclic(nodes) && ancestry.Keys == nodes.Keys && Recorded(nodes, ancestry)
    requires forall i :: 0 <= i < |documents| ==> documents[i].catalogNodeId in nodes
    ensures AllPrepared(nodes, documents, normalize, ps)
  {
    ps := [];
    var i := 0;
    while i < |documents|
      invariant 0 <= i <= |documents| && |ps| == i
      invariant forall k :: 0 <= k < i ==> IsPrepared(nodes, documents[k], normalize, ps[k])
    {
      var d := documents[i];
      ps := ps + [PreparedOf(d, nodes[d.catalogNodeId], ancestry[d.catalogNodeId], normalize)];
      i := i + 1;
    }
  }

  method PrepareSearchDocuments(
    m: Manifest, order: seq<Id>, documents: seq<SearchDocument>, normalize: string -> string)
    returns (ps: seq<Prepared>)
    requires Accepted(m) && IndexAccepted(m, documents) && KeysInOrder(order, NodeById(m))
    ensures PreparedFrom(m, documents, normalize, ps)
    ensures UniqueDocuments(ps)
  {
    var ancestry, _ := PrepareCatalogAncestry(order, NodeById(m));
    DocumentsHaveNodes(m, documents);
    ps := PrepareAll(NodeById(m), ancestry, documents, normalize);
    PreparedUnique(NodeById(m), documents, normalize, ps);
  }

  // ---- Visibility ----

  ghost predicate OptionVisible(m: Manifest, id: Option<Id>, kind: NodeKind, audience: Id) {
    id.Some? ==> GetNode(m, id.value, audience).Some? && GetNode(m, id.value, audience).value.kind == kind
  }

  /** What a result names is visible to the audience that asked. */
  ghost predicate ResultVisible(m: Manifest, r: SearchResult, audience: Id) {
    && GetNode(m, r.catalogNodeId, audience).Some?
    && (|| GetContent(m, r.entityId, audience).Some?
        || GetSource(m, r.entityId, audience).Some?
        || GetNode(m, r.entityId, audience).Some?)
    && OptionVisible(m, r.ancestry.ueId, Ue, audience)
    && OptionVisible(m, r.ancestry.moduleId, Module, audience)
    && OptionVisible(m, r.ancestry.semester, Semester, audience)
  }

  lemma NearestVisible(m: Manifest, id: Id, kind: NodeKind, r: Option<Id>, audience: Id)
    requires Accepted(m) && GetNode(m, id, audience).Some?
    requires IsNearest(NodeById(m), id, kind, r)
    ensures OptionVisible(m, r, kind, audience)
  {
    if r.Some? {
      var nodes := NodeById(m);
      var n: nat :| Up(nodes, id, n) == Some(r.value) && nodes[r.value].kind == kind && NoneBefore(nodes, id, kind, n);
      AncestorVisible(m, id, n, audience);
    }
  }

  lemma TargetVisible(m: Manifest, d: SearchDocument, audience: Id)
    requires Accepted(m) && DocumentAccepted(m, d) && audience in d.audienceIds
    ensures GetContent(m, d.targetId, audience).Some? || GetSource(m, d.targetId, audience).Some?
         || GetNode(m, d.targetId, audience).Some?
  {
    IndexListed(m.catalog, NodeId);
    assert NodeAccepted(m, NodeById(m)[d.catalogNodeId]);
  }

  lemma PreparedVisible(m: Manifest, d: SearchDocument, normalize: string -> string, p: Prepared, audience: Id)
    requires Accepted(m) && DocumentAccepted(m, d) && IsPrepared(NodeById(m), d, normalize, p)
    requires audience in d.audienceIds
    ensures ResultVisible(m, ResultOf(p), audience)
  {
    var a := AncestryOf(NodeById(m), d.catalogNodeId);
    AncestryIsNearest(NodeById(m), d.catalogNodeId);
    NearestVisible(m, d.catalogNodeId, Ue, a.ueId, audience);
    NearestVisible(m, d.catalogNodeId, Module, a.moduleId, audience);
    NearestVisible(m, d.catalogNodeId, Semester, a.semester, audience);
    TargetVisible(m, d, audience);
  }

  lemma BestComesFrom(ps: seq<Prepared>, audience: Id, f: Filters, terms: seq<string>, limit: nat, c: Candidate)
    returns (i: nat)
    requires "" !in terms && c in Best(ps, audience, f, terms, limit)
    ensures i < |ps| && c.result == ResultOf(ps[i]) && audience in ps[i].document.audienceIds
  {
    var all := Candidates(ps, audience, f, terms);
    CandidatesAre(ps, audience, f, terms);
    SortMeaning(all);
    assert c in Sort(all);
    i :| 0 <= i < |ps| && CandidateOf(ps[i], audience, f, terms) == Some(c);
  }

  /** Every document a search can return, with the ue, module and semester it carries, is visible
      to the asking audience. */
  lemma SearchRevealsOnlyVisible(
    m: Manifest, documents: seq<SearchDocument>, normalize: string -> string, ps: seq<Prepared>,
    audience: Id, f: Filters, terms: seq<string>, limit: nat, c: Candidate)
    requires Accepted(m) && IndexAccepted(m, documents) && PreparedFrom(m, documents, normalize, ps)
    requires "" !in terms && c in Best(ps, audience, f, terms, limit)
    ensures ResultVisible(m, c.result, audience)
  {
    var i := BestComesFrom(ps, audience, f, terms, limit, c);
    assert DocumentAccepted(m, documents[i]) && IsPrepared(NodeById(m), documents[i], normalize, ps[i]);
    PreparedVisible(m, documents[i], normalize, ps[i], audience);
  }
}
