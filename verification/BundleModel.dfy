/** Entities of a learning bundle. Audience ids are unique within an entry, hence sets. */
module BundleModel {
  import opened Wrappers

  type Id = string

  datatype NodeKind =
    | AudienceKind | Curriculum | Promotion | Level | Semester | Ue | Module | Chapter
    | Concept | Lesson | Exercise | PcTd | PastExam | SourceKind

  const CONTENT_NODE_KINDS: set<NodeKind> := {Concept, Lesson, Exercise, PcTd, PastExam}

  datatype CatalogNode = CatalogNode(
    id: Id, kind: NodeKind, title: string, audienceIds: set<Id>,
    parentId: Option<Id>, contentId: Option<Id>, sourceId: Option<Id>, prerequisiteIds: seq<Id>,
    difficulty: Option<string>)

  datatype Inline =
    | SourceReference(sourceId: Id, page: nat, endPage: Option<nat>)
    | ConceptReference(conceptId: Id)
    | ExerciseReference(exerciseId: Id)
    | OtherInline

  datatype Block =
    | ImageBlock(assetId: Id)
    | ListBlock(items: seq<seq<Inline>>)
    | InlinesBlock(inlines: seq<Inline>)   // heading, paragraph, quote or directive
    | PlainBlock                           // code, math or thematic break

  datatype Content = Content(
    id: Id, catalogNodeId: Id, audienceIds: set<Id>, prerequisiteIds: seq<Id>, blocks: seq<Block>)

  datatype AssetKind = Image | Pdf | Download

  datatype Asset = Asset(id: Id, fileId: Id, rightsId: Id, kind: AssetKind, audienceIds: set<Id>)

  datatype Source = Source(id: Id, audienceIds: set<Id>, assetId: Option<Id>, rightsId: Id, pageCount: nat)

  datatype Rights = Rights(id: Id, audienceIds: set<Id>, sourceServingAllowed: bool, downloadAllowed: bool)

  datatype Checksum = Checksum(fileId: Id, path: string)
}
