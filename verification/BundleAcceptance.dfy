/** The acceptance conditions of a bundle in terms of its entries and of what each audience sees:
    each is shown equivalent to the condition that the validation checks. */
module BundleAcceptance {
  import opened Wrappers
  import opened BundleModel
  import opened CatalogGraph
  import opened LearningBundle
  import opened SearchRanking

  /** Every one of the audiences sees the node. */
  ghost predicate NodeSeenBy(m: Manifest, id: Id, audiences: set<Id>) {
    id in NodeById(m) && forall a :: a in audiences ==> GetNode(m, id, a).Some?
  }

  lemma NodeOpenToMeans(m: Manifest, id: Id, audiences: set<Id>)
    ensures NodeOpenTo(m, id, audiences) <==> NodeSeenBy(m, id, audiences)
  {
    if NodeSeenBy(m, id, audiences) {
      forall a | a in audiences ensures a in NodeById(m)[id].audienceIds {
        assert GetNode(m, id, a).Some?;
      }
    }
  }

  /** No id, file, path or content link is given twice. */
  lemma UniqueMeans(m: Manifest)
    ensures AllUnique(m)
       <==> && (forall i, j :: 0 <= i < j < |m.audiences| ==> m.audiences[i] != m.audiences[j])
            && (forall i, j :: 0 <= i < j < |m.catalog| ==>
                  && m.catalog[i].id != m.catalog[j].id
                  && (m.catalog[i].contentId == m.catalog[j].contentId ==> m.catalog[i].contentId == None))
            && (forall i, j :: 0 <= i < j < |m.content| ==> m.content[i].id != m.content[j].id)
            && (forall i, j :: 0 <= i < j < |m.assets| ==>
                  m.assets[i].id != m.assets[j].id && m.assets[i].fileId != m.assets[j].fileId)
            && (forall i, j :: 0 <= i < j < |m.sources| ==> m.sources[i].id != m.sources[j].id)
            && (forall i, j :: 0 <= i < j < |m.rights| ==> m.rights[i].id != m.rights[j].id)
            && (forall i, j :: 0 <= i < j < |m.checksums| ==>
                  m.checksums[i].fileId != m.checksums[j].fileId && m.checksums[i].path != m.checksums[j].path)
  {
  }

  /** No node, content and source share an id. */
  lemma DisjointMeans(m: Manifest)
    ensures IdsDisjoint(m)
       <==> && (forall n, c :: n in m.catalog && c in m.content ==> n.id != c.id)
            && (forall n, s :: n in m.catalog && s in m.sources ==> n.id != s.id)
            && (forall c, s :: c in m.content && s in m.sources ==> c.id != s.id)
  {
    IndexListed(m.catalog, NodeId);
    IndexListed(m.content, ContentId);
    IndexListed(m.sources, SourceId);
    forall id | id in NodeById(m) ensures NodeById(m)[id] in m.catalog && NodeById(m)[id].id == id { }
    forall id | id in ContentById(m) ensures ContentById(m)[id] in m.content && ContentById(m)[id].id == id { }
    forall id | id in SourceById(m) ensures SourceById(m)[id] in m.sources && SourceById(m)[id].id == id { }
  }

  /** Every entry is for declared audiences only. */
  lemma KnownMeans(m: Manifest)
    ensures KnownAudiences(m)
       <==> && (forall n, a :: n in m.catalog && a in n.audienceIds ==> a in m.audiences)
            && (forall x, a :: x in m.assets && a in x.audienceIds ==> a in m.audiences)
            && (forall s, a :: s in m.sources && a in s.audienceIds ==> a in m.audiences)
            && (forall r, a :: r in m.rights && a in r.audienceIds ==> a in m.audiences)
  {
  }

  /** A node's content and source are there for exactly its audiences, its parent and prerequisites for
      at least those; only learning material has a content, and only source nodes a source. */
  lemma NodeMeans(m: Manifest, n: CatalogNode)
    ensures NodeAccepted(m, n)
       <==> && (n.contentId != None ==>
                  n.kind == Concept || n.kind == Lesson || n.kind == Exercise || n.kind == PcTd || n.kind == PastExam)
            && (n.parentId != None ==> NodeSeenBy(m, n.parentId.value, n.audienceIds))
            && (forall p :: p in n.prerequisiteIds ==> NodeSeenBy(m, p, n.audienceIds))
            && (n.contentId != None ==>
                  && n.contentId.value in ContentById(m)
                  && n.id == ContentById(m)[n.contentId.value].catalogNodeId
                  && forall a :: a in n.audienceIds <==> GetContent(m, n.contentId.value, a) != None)
            && (n.sourceId != None <==> n.kind == SourceKind)
            && (n.sourceId != None ==>
                  && n.sourceId.value in SourceById(m)
                  && forall a :: a in n.audienceIds <==> GetSource(m, n.sourceId.value, a) != None)
  {
    if n.parentId.Some? {
      NodeOpenToMeans(m, n.parentId.value, n.audienceIds);
    }
    forall p | p in n.prerequisiteIds ensures NodeOpenTo(m, p, n.audienceIds) <==> NodeSeenBy(m, p, n.audienceIds) {
      NodeOpenToMeans(m, p, n.audienceIds);
    }
    if n.contentId.Some? && n.contentId.value in ContentById(m) {
      SameContentAudiences(m, n.contentId.value, n.audienceIds);
    }
    if n.sourceId.Some? && n.sourceId.value in SourceById(m) {
      SameSourceAudiences(m, n.sourceId.value, n.audienceIds);
    }
  }

  lemma SameContentAudiences(m: Manifest, id: Id, audiences: set<Id>)
    requires id in ContentById(m)
    ensures ContentById(m)[id].audienceIds == audiences <==> forall a :: a in audiences <==> GetContent(m, id, a) != None
  {
    forall a ensures a in ContentById(m)[id].audienceIds <==> GetContent(m, id, a) != None { }
  }

  lemma SameSourceAudiences(m: Manifest, id: Id, audiences: set<Id>)
    requires id in SourceById(m)
    ensures SourceById(m)[id].audienceIds == audiences <==> forall a :: a in audiences <==> GetSource(m, id, a) != None
  {
    forall a ensures a in SourceById(m)[id].audienceIds <==> GetSource(m, id, a) != None { }
  }

  lemma SameNodeAudiences(m: Manifest, id: Id, audiences: set<Id>)
    requires id in NodeById(m)
    ensures NodeById(m)[id].audienceIds == audiences <==> forall a :: a in audiences <==> GetNode(m, id, a) != None
  {
    forall a ensures a in NodeById(m)[id].audienceIds <==> GetNode(m, id, a) != None { }
  }

  /** What a reference needs: a target for all these audiences, of the right kind, with the page. */
  ghost predicate ReferenceHolds(m: Manifest, inline: Inline, audiences: set<Id>) {
    match inline
    case SourceReference(id, page, endPage) =>
      && id in SourceById(m) && (forall a :: a in audiences ==> GetSource(m, id, a) != None)
      && !(page > SourceById(m)[id].pageCount)
      && (endPage != None ==> !(endPage.value > SourceById(m)[id].pageCount))
    case ConceptReference(id) =>
      NodeSeenBy(m, id, audiences) && NodeById(m)[id].kind == Concept && NodeById(m)[id].contentId != None
    case ExerciseReference(id) =>
      NodeSeenBy(m, id, audiences) && NodeById(m)[id].kind == Exercise && NodeById(m)[id].contentId != None
    case OtherInline => true
  }

  lemma ReferenceMeans(m: Manifest, inline: Inline, audiences: set<Id>)
    ensures InlineAccepted(m, inline, audiences) <==> ReferenceHolds(m, inline, audiences)
  {
    match inline
    case SourceReference(id, _, _) =>
      if id in SourceById(m) {
        forall a ensures a in SourceById(m)[id].audienceIds <==> GetSource(m, id, a) != None { }
        assert audiences <= SourceById(m)[id].audienceIds <==> forall a :: a in audiences ==> GetSource(m, id, a) != None;
      }
    case ConceptReference(id) => NodeOpenToMeans(m, id, audiences);
    case ExerciseReference(id) => NodeOpenToMeans(m, id, audiences);
    case OtherInline =>
  }

  /** A block's image and the references in its lines, of a list those of every item, all hold. */
  ghost predicate BlockHolds(m: Manifest, b: Block, audiences: set<Id>) {
    match b
    case ImageBlock(id) =>
      id in AssetById(m) && AssetById(m)[id].kind == Image && forall a :: a in audiences ==> GetAsset(m, id, a) != None
    case ListBlock(items) => forall item, i :: item in items && i in item ==> ReferenceHolds(m, i, audiences)
    case InlinesBlock(inlines) => forall i :: i in inlines ==> ReferenceHolds(m, i, audiences)
    case PlainBlock => true
  }

  lemma BlockMeans(m: Manifest, b: Block, audiences: set<Id>)
    ensures BlockAccepted(m, b, audiences) <==> BlockHolds(m, b, audiences)
  {
    forall i: Inline ensures InlineAccepted(m, i, audiences) <==> ReferenceHolds(m, i, audiences) {
      ReferenceMeans(m, i, audiences);
    }
    match b
    case ImageBlock(id) =>
      if id in AssetById(m) {
        forall a ensures a in AssetById(m)[id].audienceIds <==> GetAsset(m, id, a) != None { }
        assert audiences <= AssetById(m)[id].audienceIds <==> forall a :: a in audiences ==> GetAsset(m, id, a) != None;
      }
    case ListBlock(items) => assert InlineGroups(b) == items;
    case InlinesBlock(inlines) => assert InlineGroups(b) == [inlines] && inlines in InlineGroups(b);
    case PlainBlock =>
  }

  /** A content is named by its node, which is there for exactly its audiences, and everything it
      points to is there for them. */
  lemma ContentMeans(m: Manifest, c: Content)
    ensures ContentAccepted(m, c)
       <==> && c.catalogNodeId in NodeById(m) && NodeById(m)[c.catalogNodeId].contentId == Some(c.id)
            && (forall a :: a in c.audienceIds <==> GetNode(m, c.catalogNodeId, a) != None)
            && (forall p :: p in c.prerequisiteIds ==> NodeSeenBy(m, p, c.audienceIds))
            && forall b :: b in c.blocks ==> BlockHolds(m, b, c.audienceIds)
  {
    if c.catalogNodeId in NodeById(m) {
      SameNodeAudiences(m, c.catalogNodeId, c.audienceIds);
    }
    forall p | p in c.prerequisiteIds ensures NodeOpenTo(m, p, c.audienceIds) <==> NodeSeenBy(m, p, c.audienceIds) {
      NodeOpenToMeans(m, p, c.audienceIds);
    }
    forall b | b in c.blocks ensures BlockAccepted(m, b, c.audienceIds) <==> BlockHolds(m, b, c.audienceIds) {
      BlockMeans(m, b, c.audienceIds);
    }
  }

  lemma RightsAudiences(m: Manifest, id: Id, audiences: set<Id>)
    requires id in RightsById(m)
    ensures audiences <= RightsById(m)[id].audienceIds <==> forall a :: a in audiences ==> GetRights(m, id, a) != None
    ensures audiences == RightsById(m)[id].audienceIds <==> forall a :: a in audiences <==> GetRights(m, id, a) != None
  {
    forall a ensures a in RightsById(m)[id].audienceIds <==> GetRights(m, id, a) != None { }
  }

  /** An asset has a checksummed file, and rights that allow serving it to its audiences. */
  lemma AssetMeans(m: Manifest, x: Asset)
    ensures AssetAccepted(m, x)
       <==> && x.fileId in ChecksumById(m) && x.rightsId in RightsById(m)
            && RightsById(m)[x.rightsId].sourceServingAllowed
            && (forall a :: a in x.audienceIds ==> GetRights(m, x.rightsId, a) != None)
            && (m.schemaVersion == 3 ==> forall a :: GetRights(m, x.rightsId, a) != None ==> a in x.audienceIds)
  {
    if x.rightsId in RightsById(m) {
      RightsAudiences(m, x.rightsId, x.audienceIds);
    }
  }

  /** A source has rights for its audiences; they allow serving exactly if it has an asset, which is then
      a PDF with the same rights and the same audiences. */
  lemma SourceMeans(m: Manifest, s: Source)
    ensures SourceAccepted(m, s)
       <==> && s.rightsId in RightsById(m)
            && (forall a :: a in s.audienceIds ==> GetRights(m, s.rightsId, a) != None)
            && (m.schemaVersion == 3 ==> forall a :: GetRights(m, s.rightsId, a) != None ==> a in s.audienceIds)
            && (s.assetId != None <==> RightsById(m)[s.rightsId].sourceServingAllowed)
            && (s.assetId != None ==>
                  && s.assetId.value in AssetById(m)
                  && AssetById(m)[s.assetId.value].kind == Pdf
                  && AssetById(m)[s.assetId.value].rightsId == s.rightsId
                  && forall a :: a in s.audienceIds <==> GetAsset(m, s.assetId.value, a) != None)
  {
    if s.rightsId in RightsById(m) {
      RightsAudiences(m, s.rightsId, s.audienceIds);
    }
    if s.assetId.Some? && s.assetId.value in AssetById(m) {
      forall a ensures a in AssetById(m)[s.assetId.value].audienceIds <==> GetAsset(m, s.assetId.value, a) != None { }
    }
  }

  /** Exactly the entries used are declared. */
  lemma CoverMeans(m: Manifest)
    ensures ExactCover(m)
       <==> && (forall id :: id in SourceById(m) <==>
                  exists n :: n in m.catalog && n.kind == SourceKind && n.sourceId == Some(id))
            && (forall id :: id in AssetById(m) <==>
                  || (exists s :: s in m.sources && s.assetId == Some(id))
                  || (exists c :: c in m.content && ImageBlock(id) in c.blocks))
            && (forall id :: id in RightsById(m) <==>
                  || (exists x :: x in m.assets && x.rightsId == id)
                  || (exists s :: s in m.sources && s.rightsId == id))
            && (forall f :: f in ChecksumById(m) <==> f == m.searchFileId || exists x :: x in m.assets && x.fileId == f)
            && (forall x :: x in m.assets ==> x.fileId != m.searchFileId)
  {
    forall id ensures id in ImageAssets(m) <==> exists c :: c in m.content && ImageBlock(id) in c.blocks {
      if c :| c in m.content && ImageBlock(id) in c.blocks {
        assert ImageBlock(id).ImageBlock? && ImageBlock(id).assetId == id;
      }
      if id in ImageAssets(m) {
        var c, b :| c in m.content && b in c.blocks && b.ImageBlock? && b.assetId == id;
        assert b == ImageBlock(id);
      }
    }
  }

  /** A search document has exactly the audiences of its node and of that node's content, and leads to
      the node's content, its source or, where it has neither, to itself. */
  lemma DocumentMeans(m: Manifest, d: SearchDocument)
    ensures DocumentAccepted(m, d)
       <==> && d.catalogNodeId in NodeById(m)
            && (forall a :: a in d.audienceIds <==> GetNode(m, d.catalogNodeId, a) != None)
            && var n := NodeById(m)[d.catalogNodeId];
            && (if n.contentId != None then n.contentId == Some(d.targetId)
                else if n.sourceId != None then n.sourceId == Some(d.targetId)
                else d.targetId == d.catalogNodeId)
            && (m.schemaVersion == 3 ==> d.title == n.title)
            && (n.contentId != None ==>
                  && d.targetId in ContentById(m)
                  && forall a :: a in d.audienceIds <==> GetContent(m, d.targetId, a) != None)
  {
    if d.catalogNodeId in NodeById(m) {
      IndexListed(m.catalog, NodeId);
      SameNodeAudiences(m, d.catalogNodeId, d.audienceIds);
      if d.targetId in ContentById(m) {
        SameContentAudiences(m, d.targetId, d.audienceIds);
      }
    }
  }

  // ---- The lookups ----

  /** Each lookup finds exactly the entry of that id, and only for its audiences. */
  lemma NodeLookup(m: Manifest, id: Id, a: Id, n: CatalogNode)
    requires Unique(m.catalog, NodeId)
    ensures GetNode(m, id, a) == Some(n) <==> n in m.catalog && n.id == id && a in n.audienceIds
  {
    IndexListed(m.catalog, NodeId);
    if n in m.catalog {
      IndexExact(m.catalog, NodeId, n);
    }
  }

  lemma ContentLookup(m: Manifest, id: Id, a: Id, c: Content)
    requires Unique(m.content, ContentId)
    ensures GetContent(m, id, a) == Some(c) <==> c in m.content && c.id == id && a in c.audienceIds
  {
    IndexListed(m.content, ContentId);
    if c in m.content {
      IndexExact(m.content, ContentId, c);
    }
  }

  lemma AssetLookup(m: Manifest, id: Id, a: Id, x: Asset)
    requires Unique(m.assets, AssetId)
    ensures GetAsset(m, id, a) == Some(x) <==> x in m.assets && x.id == id && a in x.audienceIds
  {
    IndexListed(m.assets, AssetId);
    if x in m.assets {
      IndexExact(m.assets, AssetId, x);
    }
  }

  lemma SourceLookup(m: Manifest, id: Id, a: Id, s: Source)
    requires Unique(m.sources, SourceId)
    ensures GetSource(m, id, a) == Some(s) <==> s in m.sources && s.id == id && a in s.audienceIds
  {
    IndexListed(m.sources, SourceId);
    if s in m.sources {
      IndexExact(m.sources, SourceId, s);
    }
  }

  lemma RightsLookup(m: Manifest, id: Id, a: Id, r: Rights)
    requires Unique(m.rights, RightsId)
    ensures GetRights(m, id, a) == Some(r) <==> r in m.rights && r.id == id && a in r.audienceIds
  {
    IndexListed(m.rights, RightsId);
    if r in m.rights {
      IndexExact(m.rights, RightsId, r);
    }
  }

  /** An asset opens for an audience of its own and of its rights, if those allow serving and, for a
      download, downloading. */
  lemma AssetOpens(m: Manifest, id: Id, a: Id, action: Action, x: Asset)
    requires Unique(m.assets, AssetId) && Unique(m.rights, RightsId)
    ensures GetAssetForAction(m, id, a, action) == Some(x)
       <==> && x in m.assets && x.id == id && a in x.audienceIds
            && exists r :: && r in m.rights && r.id == x.rightsId && a in r.audienceIds
                           && r.sourceServingAllowed && (action == Downloaded ==> r.downloadAllowed)
  {
    AssetLookup(m, id, a, x);
    if r :| && r in m.rights && r.id == x.rightsId && a in r.audienceIds
            && r.sourceServingAllowed && (action == Downloaded ==> r.downloadAllowed) {
      RightsLookup(m, x.rightsId, a, r);
    }
    if GetRights(m, x.rightsId, a).Some? {
      RightsLookup(m, x.rightsId, a, GetRights(m, x.rightsId, a).value);
    }
  }

  /** A source opens as its asset, if that is a PDF that opens. */
  lemma SourceOpensAs(m: Manifest, id: Id, a: Id, action: Action, x: Asset)
    requires Unique(m.sources, SourceId)
    ensures GetSourceAsset(m, id, a, action) == Some(x)
       <==> && x.kind == Pdf
            && exists s :: && s in m.sources && s.id == id && a in s.audienceIds && s.assetId != None
                           && GetAssetForAction(m, s.assetId.value, a, action) == Some(x)
  {
    if s :| && s in m.sources && s.id == id && a in s.audienceIds && s.assetId != None
            && GetAssetForAction(m, s.assetId.value, a, action) == Some(x) {
      SourceLookup(m, id, a, s);
    }
    if GetSource(m, id, a).Some? {
      SourceLookup(m, id, a, GetSource(m, id, a).value);
    }
  }
}
