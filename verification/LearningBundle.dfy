/** The graph conditions of a bundle manifest, the audience-scoped lookups over an accepted one,
    and what acceptance guarantees to every lookup. */
module LearningBundle {
  import opened Wrappers
  import opened BundleModel
  import opened CatalogGraph

  datatype Manifest = Manifest(
    schemaVersion: nat, audiences: seq<Id>, catalog: seq<CatalogNode>, content: seq<Content>,
    assets: seq<Asset>, sources: seq<Source>, rights: seq<Rights>, searchFileId: Id, checksums: seq<Checksum>)

  // ---- Dictionaries by id ----

  function Index<T>(items: seq<T>, key: T -> Id): map<Id, T> {
    if items == [] then map[]
    else Index(items[..|items| - 1], key)[key(items[|items| - 1]) := items[|items| - 1]]
  }

  predicate Unique<T>(items: seq<T>, key: T -> Id) {
    forall i, j :: 0 <= i < j < |items| ==> key(items[i]) != key(items[j])
  }

  /** A dictionary holds listed items under their own id, and every id listed. */
  lemma {:induction false} IndexListed<T>(items: seq<T>, key: T -> Id)
    ensures forall id :: id in Index(items, key) ==> Index(items, key)[id] in items && key(Index(items, key)[id]) == id
    ensures forall x :: x in items ==> key(x) in Index(items, key)
  {
    if items != [] {
      var front, last := items[..|items| - 1], items[|items| - 1];
      IndexListed(front, key);
      assert items == front + [last];
    }
  }

  /** With unique ids the dictionary loses nothing. */
  lemma IndexExact<T>(items: seq<T>, key: T -> Id, x: T)
    requires Unique(items, key) && x in items
    ensures key(x) in Index(items, key) && Index(items, key)[key(x)] == x
  {
    IndexListed(items, key);
    var y := Index(items, key)[key(x)];
    var i :| 0 <= i < |items| && items[i] == x;
    var j :| 0 <= j < |items| && items[j] == y;
  }

  /** The uniqueness check, with its growing set of ids seen. */
  method RequireUniqueIds(ids: seq<Id>) returns (ok: bool)
    ensures ok <==> NoRepeat(ids)
  {
    var seen: set<Id> := {};
    var i := 0;
    while i < |ids|
      invariant 0 <= i <= |ids|
      invariant seen == set k | 0 <= k < i :: ids[k]
      invariant NoRepeat(ids[..i])
    {
      if ids[i] in seen {
        var k :| 0 <= k < i && ids[k] == ids[i];
        return false;
      }
      assert forall k :: 0 <= k < i ==> ids[..i + 1][k] == ids[..i][k];
      seen := seen + {ids[i]};
      i := i + 1;
    }
    assert ids[..i] == ids;
    ok := true;
  }

  function NodeId(n: CatalogNode): Id { n.id }
  function ContentId(c: Content): Id { c.id }
  function AssetId(a: Asset): Id { a.id }
  function AssetFile(a: Asset): Id { a.fileId }
  function SourceId(s: Source): Id { s.id }
  function RightsId(r: Rights): Id { r.id }
  function ChecksumFile(c: Checksum): Id { c.fileId }
  function ChecksumPath(c: Checksum): Id { c.path }

  function NodeById(m: Manifest): Nodes { Index(m.catalog, NodeId) }
  function ContentById(m: Manifest): map<Id, Content> { Index(m.content, ContentId) }
  function AssetById(m: Manifest): map<Id, Asset> { Index(m.assets, AssetId) }
  function SourceById(m: Manifest): map<Id, Source> { Index(m.sources, SourceId) }
  function RightsById(m: Manifest): map<Id, Rights> { Index(m.rights, RightsId) }
  function ChecksumById(m: Manifest): map<Id, Checksum> { Index(m.checksums, ChecksumFile) }

  // ---- The acceptance conditions ----

  predicate AllUnique(m: Manifest) {
    && NoRepeat(m.audiences)
    && Unique(m.catalog, NodeId) && Unique(m.content, ContentId)
    && Unique(m.assets, AssetId) && Unique(m.assets, AssetFile)
    && Unique(m.sources, SourceId) && Unique(m.rights, RightsId)
    && Unique(m.checksums, ChecksumFile) && Unique(m.checksums, ChecksumPath)
    && LinksDistinct(m.catalog)
  }

  predicate IdsDisjoint(m: Manifest) {
    && NodeById(m).Keys !! ContentById(m).Keys
    && NodeById(m).Keys !! SourceById(m).Keys
    && ContentById(m).Keys !! SourceById(m).Keys
  }

  predicate KnownAudiences(m: Manifest) {
    var known := set a | a in m.audiences;
    && (forall n :: n in m.catalog ==> n.audienceIds <= known)
    && (forall a :: a in m.assets ==> a.audienceIds <= known)
    && (forall s :: s in m.sources ==> s.audienceIds <= known)
    && (forall r :: r in m.rights ==> r.audienceIds <= known)
  }

  /** The id denotes a node open to all of `audiences`. */
  predicate NodeOpenTo(m: Manifest, id: Id, audiences: set<Id>) {
    id in NodeById(m) && audiences <= NodeById(m)[id].audienceIds
  }

  predicate NodeAccepted(m: Manifest, n: CatalogNode) {
    && (n.contentId.Some? ==> n.kind in CONTENT_NODE_KINDS)
    && (n.parentId.Some? ==> NodeOpenTo(m, n.parentId.value, n.audienceIds))
    && (forall p :: p in n.prerequisiteIds ==> NodeOpenTo(m, p, n.audienceIds))
    && (n.contentId.Some? ==>
          && n.contentId.value in ContentById(m)
          && ContentById(m)[n.contentId.value].catalogNodeId == n.id
          && ContentById(m)[n.contentId.value].audienceIds == n.audienceIds)
    && (if n.kind == SourceKind then
          && n.sourceId.Some? && n.sourceId.value in SourceById(m)
          && SourceById(m)[n.sourceId.value].audienceIds == n.audienceIds
        else n.sourceId.None?)
  }

  predicate LinksKind(m: Manifest, id: Id, kind: NodeKind, audiences: set<Id>) {
    NodeOpenTo(m, id, audiences) && NodeById(m)[id].kind == kind && NodeById(m)[id].contentId.Some?
  }

  predicate InlineAccepted(m: Manifest, inline: Inline, audiences: set<Id>) {
    match inline
    case SourceReference(id, page, endPage) =>
      && id in SourceById(m) && audiences <= SourceById(m)[id].audienceIds
      && page <= SourceById(m)[id].pageCount
      && (endPage.Some? ==> endPage.value <= SourceById(m)[id].pageCount)
    case ConceptReference(id) => LinksKind(m, id, Concept, audiences)
    case ExerciseReference(id) => LinksKind(m, id, Exercise, audiences)
    case OtherInline => true
  }

  function InlineGroups(b: Block): seq<seq<Inline>> {
    match b
    case ListBlock(items) => items
    case InlinesBlock(inlines) => [inlines]
    case _ => []
  }

  predicate BlockAccepted(m: Manifest, b: Block, audiences: set<Id>) {
    && (b.ImageBlock? ==>
          && b.assetId in AssetById(m) && AssetById(m)[b.assetId].kind == Image
          && audiences <= AssetById(m)[b.assetId].audienceIds)
    && forall group :: group in InlineGroups(b) ==> forall i :: i in group ==> InlineAccepted(m, i, audiences)
  }

  predicate ContentAccepted(m: Manifest, c: Content) {
    && c.catalogNodeId in NodeById(m)
    && NodeById(m)[c.catalogNodeId].contentId == Some(c.id)
    && NodeById(m)[c.catalogNodeId].audienceIds == c.audienceIds
    && (forall p :: p in c.prerequisiteIds ==> NodeOpenTo(m, p, c.audienceIds))
    && (forall b :: b in c.blocks ==> BlockAccepted(m, b, c.audienceIds))
  }

  predicate AssetAccepted(m: Manifest, a: Asset) {
    && a.fileId in ChecksumById(m)
    && a.rightsId in RightsById(m)
    && a.audienceIds <= RightsById(m)[a.rightsId].audienceIds
    && RightsById(m)[a.rightsId].sourceServingAllowed
    && (m.schemaVersion == 3 ==> a.audienceIds == RightsById(m)[a.rightsId].audienceIds)
  }

  predicate SourceAccepted(m: Manifest, s: Source) {
    && s.rightsId in RightsById(m)
    && var rights := RightsById(m)[s.rightsId];
    && s.audienceIds <= rights.audienceIds
    && (m.schemaVersion == 3 ==> s.audienceIds == rights.audienceIds)
    && (if s.assetId.None? then !rights.sourceServingAllowed
        else
          && s.assetId.value in AssetById(m)
          && AssetById(m)[s.assetId.value].kind == Pdf
          && rights.sourceServingAllowed
          && s.rightsId == AssetById(m)[s.assetId.value].rightsId
          && s.audienceIds == AssetById(m)[s.assetId.value].audienceIds)
  }

  function ImageAssets(m: Manifest): set<Id> {
    set c, b | c in m.content && b in c.blocks && b.ImageBlock? :: b.assetId
  }

  predicate ExactCover(m: Manifest) {
    && (set n | n in m.catalog && n.kind == SourceKind && n.sourceId.Some? :: n.sourceId.value) == SourceById(m).Keys
    && (set s | s in m.sources && s.assetId.Some? :: s.assetId.value) + ImageAssets(m) == AssetById(m).Keys
    && (set a | a in m.assets :: a.rightsId) + (set s | s in m.sources :: s.rightsId) == RightsById(m).Keys
    && m.searchFileId !in (set a | a in m.assets :: a.fileId)
    && (set a | a in m.assets :: a.fileId) + {m.searchFileId} == ChecksumById(m).Keys
  }

  /** Everything the manifest's graph validation requires. */
  ghost predicate Accepted(m: Manifest) {
    && AllUnique(m) && IdsDisjoint(m) && KnownAudiences(m)
    && (forall n :: n in m.catalog ==> NodeAccepted(m, n))
    && Acyclic(NodeById(m))
    && (forall c :: c in m.content ==> ContentAccepted(m, c))
    && (forall a :: a in m.assets ==> AssetAccepted(m, a))
    && (forall s :: s in m.sources ==> SourceAccepted(m, s))
    && ExactCover(m)
  }

  /** The cycle check only runs once every parent resolves, as its precondition asks. */
  lemma ParentsResolve(m: Manifest)
    requires forall n :: n in m.catalog ==> NodeAccepted(m, n)
    ensures Resolved(NodeById(m))
  {
    IndexListed(m.catalog, NodeId);
  }

  function Ids<T>(items: seq<T>, key: T -> Id): seq<Id> {
    seq(|items|, i requires 0 <= i < |items| => key(items[i]))
  }

  lemma UniqueIds<T>(items: seq<T>, key: T -> Id)
    ensures NoRepeat(Ids(items, key)) <==> Unique(items, key)
  {
    var ids := Ids(items, key);
    if NoRepeat(ids) {
      forall i, j | 0 <= i < j < |items| ensures key(items[i]) != key(items[j]) {
        assert ids[i] != ids[j];
      }
    }
  }

  function LinkedContentIds(catalog: seq<CatalogNode>): seq<Id> {
    if catalog == [] then []
    else
      var last := catalog[|catalog| - 1];
      LinkedContentIds(catalog[..|catalog| - 1]) + if last.contentId.Some? then [last.contentId.value] else []
  }

  predicate LinksDistinct(catalog: seq<CatalogNode>) {
    forall i, j :: 0 <= i < j < |catalog| && catalog[i].contentId.Some? ==> catalog[i].contentId != catalog[j].contentId
  }

  lemma {:induction false} LinkedIdsListed(catalog: seq<CatalogNode>, id: Id)
    ensures id in LinkedContentIds(catalog) <==> exists i :: 0 <= i < |catalog| && catalog[i].contentId == Some(id)
  {
    if catalog != [] {
      var front := catalog[..|catalog| - 1];
      LinkedIdsListed(front, id);
      assert forall i :: 0 <= i < |front| ==> front[i] == catalog[i];
    }
  }

  lemma {:induction false} LinkedIdsUnique(catalog: seq<CatalogNode>)
    ensures NoRepeat(LinkedContentIds(catalog)) <==> LinksDistinct(catalog)
  {
    if catalog != [] {
      var front, last := catalog[..|catalog| - 1], catalog[|catalog| - 1];
      LinkedIdsUnique(front);
      assert forall i :: 0 <= i < |front| ==> front[i] == catalog[i];
      LinksDistinctPush(catalog);
      if last.contentId.Some? {
        LinkedIdsListed(front, last.contentId.value);
        NoRepeatPush(LinkedContentIds(front), last.contentId.value);
      } else {
        assert LinkedContentIds(catalog) == LinkedContentIds(front);
      }
    }
  }

  lemma LinksDistinctPush(catalog: seq<CatalogNode>)
    requires catalog != []
    ensures var front, link := catalog[..|catalog| - 1], catalog[|catalog| - 1].contentId;
            LinksDistinct(catalog) <==>
              LinksDistinct(front) && (link.Some? ==> forall i :: 0 <= i < |front| ==> front[i].contentId != link)
  {
    var front, link := catalog[..|catalog| - 1], catalog[|catalog| - 1].contentId;
    if LinksDistinct(catalog) {
      forall i, j | 0 <= i < j < |front| && front[i].contentId.Some? ensures front[i].contentId != front[j].contentId {
        assert catalog[i].contentId != catalog[j].contentId;
      }
      forall i | 0 <= i < |front| && link.Some? ensures front[i].contentId != link {
        assert catalog[i] == front[i];
      }
    }
  }

  lemma NoRepeatPush(ids: seq<Id>, id: Id)
    ensures NoRepeat(ids + [id]) <==> NoRepeat(ids) && id !in ids
  {
    if NoRepeat(ids + [id]) {
      forall i, j | 0 <= i < j < |ids| ensures ids[i] != ids[j] {
        assert (ids + [id])[i] != (ids + [id])[j];
      }
      forall k | 0 <= k < |ids| ensures ids[k] != id {
        assert (ids + [id])[k] != (ids + [id])[|ids|];
      }
    }
  }

  /** The dictionary of nodes is iterated in catalog order. */
  lemma NodesInOrder(m: Manifest)
    requires Unique(m.catalog, NodeId)
    ensures KeysInOrder(Ids(m.catalog, NodeId), NodeById(m))
  {
    UniqueIds(m.catalog, NodeId);
    IndexListed(m.catalog, NodeId);
    var order := Ids(m.catalog, NodeId);
    forall id ensures id in NodeById(m) <==> id in order {
      if id in NodeById(m) {
        var i :| 0 <= i < |m.catalog| && m.catalog[i] == NodeById(m)[id];
        assert order[i] == id;
      }
    }
  }

  /** The uniqueness checks, the last of them over the content links. */
  method CheckUnique(m: Manifest) returns (ok: bool)
    ensures ok <==> AllUnique(m)
  {
    UniqueIds(m.catalog, NodeId);
    UniqueIds(m.content, ContentId);
    UniqueIds(m.assets, AssetId);
    UniqueIds(m.assets, AssetFile);
    UniqueIds(m.sources, SourceId);
    UniqueIds(m.rights, RightsId);
    UniqueIds(m.checksums, ChecksumFile);
    UniqueIds(m.checksums, ChecksumPath);
    LinkedIdsUnique(m.catalog);
    var audiences := RequireUniqueIds(m.audiences);
    var nodes := RequireUniqueIds(Ids(m.catalog, NodeId));
    var contents := RequireUniqueIds(Ids(m.content, ContentId));
    var assets := RequireUniqueIds(Ids(m.assets, AssetId));
    var assetFiles := RequireUniqueIds(Ids(m.assets, AssetFile));
    var sources := RequireUniqueIds(Ids(m.sources, SourceId));
    var rights := RequireUniqueIds(Ids(m.rights, RightsId));
    var checksums := RequireUniqueIds(Ids(m.checksums, ChecksumFile));
    var paths := RequireUniqueIds(Ids(m.checksums, ChecksumPath));
    var links := RequireUniqueIds(LinkedContentIds(m.catalog));
    ok := audiences && nodes && contents && assets && assetFiles && sources && rights && checksums && paths && links;
  }

  /** The whole graph validation accepts exactly the manifests that meet every condition. The
      cycle check is reached only with parents that resolve. */
  method ValidateGraph(m: Manifest) returns (ok: bool)
    ensures ok <==> Accepted(m)
  {
    ok := CheckUnique(m);
    if !ok || !IdsDisjoint(m) || !KnownAudiences(m) {
      return false;
    }
    if !(forall n :: n in m.catalog ==> NodeAccepted(m, n)) {
      return false;
    }
    ParentsResolve(m);
    NodesInOrder(m);
    ghost var coloured;
    ok, coloured := RejectParentCycles(Ids(m.catalog, NodeId), NodeById(m));
    ok := ok
       && (forall c :: c in m.content ==> ContentAccepted(m, c))
       && (forall a :: a in m.assets ==> AssetAccepted(m, a))
       && (forall s :: s in m.sources ==> SourceAccepted(m, s))
       && ExactCover(m);
  }

  // ---- Audience-scoped lookups ----

  datatype Action = Inlined | Downloaded

  function GetNode(m: Manifest, id: Id, audience: Id): Option<CatalogNode> {
    if id in NodeById(m) && audience in NodeById(m)[id].audienceIds then Some(NodeById(m)[id]) else None
  }

  function GetContent(m: Manifest, id: Id, audience: Id): Option<Content> {
    if id in ContentById(m) && audience in ContentById(m)[id].audienceIds then Some(ContentById(m)[id]) else None
  }

  function GetAsset(m: Manifest, id: Id, audience: Id): Option<Asset> {
    if id in AssetById(m) && audience in AssetById(m)[id].audienceIds then Some(AssetById(m)[id]) else None
  }

  function GetSource(m: Manifest, id: Id, audience: Id): Option<Source> {
    if id in SourceById(m) && audience in SourceById(m)[id].audienceIds then Some(SourceById(m)[id]) else None
  }

  function GetRights(m: Manifest, id: Id, audience: Id): Option<Rights> {
    if id in RightsById(m) && audience in RightsById(m)[id].audienceIds then Some(RightsById(m)[id]) else None
  }

  function GetAssetForAction(m: Manifest, id: Id, audience: Id, action: Action): Option<Asset> {
    var asset := GetAsset(m, id, audience);
    if asset.None? then None
    else
      var rights := GetRights(m, asset.value.rightsId, audience);
      if rights.None? || !rights.value.sourceServingAllowed then None
      else if action.Downloaded? && !rights.value.downloadAllowed then None
      else asset
  }

  function GetSourceAsset(m: Manifest, id: Id, audience: Id, action: Action): Option<Asset> {
    var source := GetSource(m, id, audience);
    if source.None? || source.value.assetId.None? then None
    else
      var asset := GetAssetForAction(m, source.value.assetId.value, audience, action);
      if asset.None? || asset.value.kind != Pdf then None else asset
  }

  // ---- Closure ----

  /** One edge a reader can follow from a node: to its parent or to a prerequisite. */
  predicate Edge(m: Manifest, from: Id, to: Id) {
    from in NodeById(m) &&
    (NodeById(m)[from].parentId == Some(to) || to in NodeById(m)[from].prerequisiteIds)
  }

  predicate Path(m: Manifest, path: seq<Id>) {
    path != [] && forall i :: 0 <= i < |path| - 1 ==> Edge(m, path[i], path[i + 1])
  }

  lemma EdgeVisible(m: Manifest, from: Id, to: Id, audience: Id)
    requires Accepted(m) && Edge(m, from, to) && GetNode(m, from, audience).Some?
    ensures GetNode(m, to, audience).Some?
  {
    IndexListed(m.catalog, NodeId);
    assert NodeAccepted(m, NodeById(m)[from]);
  }

  /** From a visible node, any chain of parents and prerequisites stays visible. */
  lemma {:induction false} PathVisible(m: Manifest, path: seq<Id>, audience: Id)
    requires Accepted(m) && Path(m, path) && GetNode(m, path[0], audience).Some?
    ensures GetNode(m, path[|path| - 1], audience).Some?
    decreases |path|
  {
    if |path| > 1 {
      assert Edge(m, path[0], path[1]);
      EdgeVisible(m, path[0], path[1], audience);
      assert Path(m, path[1..]) && path[1..][0] == path[1];
      PathVisible(m, path[1..], audience);
    }
  }

  /** In particular every ancestor of a visible node is visible. */
  lemma {:induction false} AncestorVisible(m: Manifest, id: Id, n: nat, audience: Id)
    requires Accepted(m) && GetNode(m, id, audience).Some?
    ensures Up(NodeById(m), id, n).Some? ==> GetNode(m, Up(NodeById(m), id, n).value, audience).Some?
  {
    if n > 0 {
      AncestorVisible(m, id, n - 1, audience);
      if Up(NodeById(m), id, n).Some? {
        var below := Up(NodeById(m), id, n - 1).value;
        EdgeVisible(m, below, Up(NodeById(m), id, n).value, audience);
      }
    }
  }

  /** A visible content is filed under a visible node, and everything reachable from it or from
      its own prerequisites through parents and prerequisites is visible. */
  lemma ContentClosed(m: Manifest, contentId: Id, path: seq<Id>, audience: Id)
    requires Accepted(m) && GetContent(m, contentId, audience).Some? && Path(m, path)
    requires var c := GetContent(m, contentId, audience).value;
             path[0] == c.catalogNodeId || path[0] in c.prerequisiteIds
    ensures GetNode(m, path[|path| - 1], audience).Some?
  {
    IndexListed(m.content, ContentId);
    var c := GetContent(m, contentId, audience).value;
    assert ContentAccepted(m, c);
    if path[0] != c.catalogNodeId {
      assert NodeOpenTo(m, path[0], c.audienceIds);
    }
    PathVisible(m, path, audience);
  }

  lemma AssetOpensInline(m: Manifest, id: Id, audience: Id)
    requires Accepted(m) && GetAsset(m, id, audience).Some?
    ensures GetAssetForAction(m, id, audience, Inlined) == GetAsset(m, id, audience)
    ensures GetAsset(m, id, audience).value.fileId in ChecksumById(m)
  {
    IndexListed(m.assets, AssetId);
    assert AssetAccepted(m, GetAsset(m, id, audience).value);
  }

  /** What a reference inside a visible content finds through the lookups. */
  ghost predicate InlineResolves(m: Manifest, inline: Inline, audience: Id) {
    match inline
    case SourceReference(id, page, endPage) =>
      && GetSource(m, id, audience).Some?
      && page <= GetSource(m, id, audience).value.pageCount
      && (endPage.Some? ==> endPage.value <= GetSource(m, id, audience).value.pageCount)
    case ConceptReference(id) => NodeAndContentResolve(m, id, Concept, audience)
    case ExerciseReference(id) => NodeAndContentResolve(m, id, Exercise, audience)
    case OtherInline => true
  }

  ghost predicate NodeAndContentResolve(m: Manifest, id: Id, kind: NodeKind, audience: Id) {
    var node := GetNode(m, id, audience);
    && node.Some? && node.value.kind == kind && node.value.contentId.Some?
    && GetContent(m, node.value.contentId.value, audience).Some?
  }

  lemma LinkedNodeResolves(m: Manifest, id: Id, kind: NodeKind, audiences: set<Id>, audience: Id)
    requires Accepted(m) && LinksKind(m, id, kind, audiences) && audience in audiences
    ensures NodeAndContentResolve(m, id, kind, audience)
  {
    IndexListed(m.catalog, NodeId);
    assert NodeAccepted(m, NodeById(m)[id]);
  }

  /** Every concept, exercise, source and image reference of a visible content resolves for that
      audience; images open inline. */
  lemma ReferencesResolve(m: Manifest, contentId: Id, audience: Id, b: Block)
    requires Accepted(m) && GetContent(m, contentId, audience).Some?
    requires b in GetContent(m, contentId, audience).value.blocks
    ensures forall group, i :: group in InlineGroups(b) && i in group ==> InlineResolves(m, i, audience)
    ensures b.ImageBlock? ==>
              && GetAssetForAction(m, b.assetId, audience, Inlined).Some?
              && GetAssetForAction(m, b.assetId, audience, Inlined).value.kind == Image
  {
    IndexListed(m.content, ContentId);
    var c := GetContent(m, contentId, audience).value;
    assert ContentAccepted(m, c) && BlockAccepted(m, b, c.audienceIds);
    forall group, i | group in InlineGroups(b) && i in group ensures InlineResolves(m, i, audience) {
      assert InlineAccepted(m, i, c.audienceIds);
      match i
      case ConceptReference(id) => LinkedNodeResolves(m, id, Concept, c.audienceIds, audience);
      case ExerciseReference(id) => LinkedNodeResolves(m, id, Exercise, c.audienceIds, audience);
      case _ =>
    }
    if b.ImageBlock? {
      AssetOpensInline(m, b.assetId, audience);
    }
  }

  lemma SourceFacts(m: Manifest, id: Id)
    requires Accepted(m) && id in SourceById(m)
    ensures SourceAccepted(m, SourceById(m)[id])
  {
    IndexListed(m.sources, SourceId);
  }

  lemma RightsOfSource(m: Manifest, s: Source, audience: Id)
    requires SourceAccepted(m, s) && audience in s.audienceIds
    ensures GetRights(m, s.rightsId, audience) == Some(RightsById(m)[s.rightsId])
    ensures s.assetId.Some? ==>
              && GetAsset(m, s.assetId.value, audience).Some?
              && GetAsset(m, s.assetId.value, audience).value.rightsId == s.rightsId
              && GetAsset(m, s.assetId.value, audience).value.kind == Pdf
              && RightsById(m)[s.rightsId].sourceServingAllowed
  {
  }

  lemma SourceAssetByRights(m: Manifest, id: Id, audience: Id)
    requires GetSource(m, id, audience).Some? && SourceAccepted(m, GetSource(m, id, audience).value)
    ensures var s := GetSource(m, id, audience).value;
            && (GetSourceAsset(m, id, audience, Inlined).Some? <==> s.assetId.Some?)
            && (GetSourceAsset(m, id, audience, Downloaded).Some? <==>
                  s.assetId.Some? && RightsById(m)[s.rightsId].downloadAllowed)
  {
    RightsOfSource(m, GetSource(m, id, audience).value, audience);
  }

  /** A visible source opens inline exactly when it has an asset, and for download exactly when
      its rights also allow that; the file opened is always a checksummed one. */
  lemma SourceOpens(m: Manifest, id: Id, audience: Id)
    requires Accepted(m) && GetSource(m, id, audience).Some?
    ensures var s := GetSource(m, id, audience).value;
            && s.rightsId in RightsById(m)
            && (GetSourceAsset(m, id, audience, Inlined).Some? <==> s.assetId.Some?)
            && (GetSourceAsset(m, id, audience, Downloaded).Some? <==>
                  s.assetId.Some? && RightsById(m)[s.rightsId].downloadAllowed)
    ensures GetSourceAsset(m, id, audience, Inlined).Some? ==>
              GetSourceAsset(m, id, audience, Inlined).value.fileId in ChecksumById(m)
  {
    SourceFacts(m, id);
    SourceAssetByRights(m, id, audience);
    if GetSourceAsset(m, id, audience, Inlined).Some? {
      OpenedFileChecksummed(m, id, audience);
    }
  }

  lemma OpenedFileChecksummed(m: Manifest, id: Id, audience: Id)
    requires Accepted(m) && GetSourceAsset(m, id, audience, Inlined).Some?
    ensures GetSourceAsset(m, id, audience, Inlined).value.fileId in ChecksumById(m)
  {
    AssetOpensInline(m, GetSource(m, id, audience).value.assetId.value, audience);
  }

  /** Contents and content-bearing nodes are in bijection: each content belongs to exactly one
      node, which names it, and each node's content names it back. */
  lemma ContentsMatchNodes(m: Manifest)
    requires Accepted(m)
    ensures forall c :: c in m.content ==> exists n :: n in m.catalog && n.contentId == Some(c.id) && n.id == c.catalogNodeId
    ensures forall n :: n in m.catalog && n.contentId.Some? ==>
              exists c :: c in m.content && c.id == n.contentId.value && c.catalogNodeId == n.id
    ensures forall n, o :: n in m.catalog && o in m.catalog && n.contentId.Some? && n.contentId == o.contentId ==> n == o
    ensures forall c, e :: c in m.content && e in m.content && c.catalogNodeId == e.catalogNodeId ==> c == e
  {
    IndexListed(m.catalog, NodeId);
    IndexListed(m.content, ContentId);
    forall c | c in m.content
      ensures exists n :: n in m.catalog && n.contentId == Some(c.id) && n.id == c.catalogNodeId
    {
      assert ContentAccepted(m, c);
      assert NodeById(m)[c.catalogNodeId] in m.catalog;
    }
    forall n | n in m.catalog && n.contentId.Some?
      ensures exists c :: c in m.content && c.id == n.contentId.value && c.catalogNodeId == n.id
    {
      assert NodeAccepted(m, n);
      assert ContentById(m)[n.contentId.value] in m.content;
    }
    forall c, e | c in m.content && e in m.content && c.catalogNodeId == e.catalogNodeId ensures c == e {
      assert ContentAccepted(m, c) && ContentAccepted(m, e);
      IndexExact(m.content, ContentId, c);
      IndexExact(m.content, ContentId, e);
    }
  }

  // ---- Nothing loose ----

  /** Only a declared audience sees anything. */
  lemma AudienceDeclared(m: Manifest, id: Id, audience: Id)
    requires Accepted(m)
    requires GetNode(m, id, audience).Some? || GetContent(m, id, audience).Some? || GetAsset(m, id, audience).Some?
          || GetSource(m, id, audience).Some? || GetRights(m, id, audience).Some?
    ensures audience in m.audiences
  {
    IndexListed(m.catalog, NodeId);
    IndexListed(m.content, ContentId);
    IndexListed(m.assets, AssetId);
    IndexListed(m.sources, SourceId);
    IndexListed(m.rights, RightsId);
    if GetContent(m, id, audience).Some? {
      assert ContentAccepted(m, GetContent(m, id, audience).value);
    }
  }

  /** An id is that of at most one of a node, a content and a source. */
  lemma OneMeaningPerId(m: Manifest, id: Id, audience: Id, other: Id)
    requires Accepted(m)
    ensures GetNode(m, id, audience).Some? ==> GetContent(m, id, other).None? && GetSource(m, id, other).None?
    ensures GetContent(m, id, audience).Some? ==> GetSource(m, id, other).None?
  {
  }

  /** A visible source is the source of a visible node of kind source. */
  lemma SourceListed(m: Manifest, id: Id, audience: Id) returns (node: Id)
    requires Accepted(m) && GetSource(m, id, audience).Some?
    ensures GetNode(m, node, audience).Some?
    ensures GetNode(m, node, audience).value.kind == SourceKind && GetNode(m, node, audience).value.sourceId == Some(id)
  {
    var n :| n in m.catalog && n.kind == SourceKind && n.sourceId == Some(id);
    assert NodeAccepted(m, n);
    IndexExact(m.catalog, NodeId, n);
    node := n.id;
  }

  /** Every asset is that of a source or of an image block of some content. */
  lemma AssetUsed(m: Manifest, id: Id)
    requires Accepted(m) && id in AssetById(m)
    ensures || (exists s :: s in m.sources && s.assetId == Some(id))
            || (exists c, b :: c in m.content && b in c.blocks && b == ImageBlock(id))
  {
    if id in ImageAssets(m) {
      var c, b :| c in m.content && b in c.blocks && b.ImageBlock? && b.assetId == id;
      assert b == ImageBlock(id);
    } else {
      var s :| s in m.sources && s.assetId.Some? && s.assetId.value == id;
    }
  }

  /** Every rights entry is that of an asset or of a source. */
  lemma RightsUsed(m: Manifest, id: Id)
    requires Accepted(m) && id in RightsById(m)
    ensures (exists a :: a in m.assets && a.rightsId == id) || (exists s :: s in m.sources && s.rightsId == id)
  {
    if !(exists a :: a in m.assets && a.rightsId == id) {
      var s :| s in m.sources && s.rightsId == id;
    }
  }

  /** The checksummed files are the assets' and the search index, which is no asset's. */
  lemma FilesExact(m: Manifest, fileId: Id)
    requires Accepted(m)
    ensures fileId in ChecksumById(m) <==> fileId == m.searchFileId || exists a :: a in m.assets && a.fileId == fileId
    ensures fileId == m.searchFileId ==> !exists a :: a in m.assets && a.fileId == fileId
  {
  }
}
