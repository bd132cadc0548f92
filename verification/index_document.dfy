/**
 * The full-text index entry of a document (`documents/index.py`,
 * `get_schema` and `update_document`): the flat record a document is
 * projected into, the archive-serial-number range check applied on the way,
 * and the replace-by-id writes and deletes of the index writer.
 */
module IndexDocument {
  import opened Wrappers
  import opened Strings

  /** A related object shown by name: correspondent, document type, storage path or tag. */
  datatype Named = Named(id: int, name: string)

  datatype User = User(id: int, username: string)

  /** Timestamps are opaque ordered values (seconds, say). */
  type Timestamp = int

  /** The document of record, with the relations the projection reads. */
  datatype Document = Document(
    pk: int,
    title: string,
    content: string,
    correspondent: Option<Named>,
    documentType: Option<Named>,
    storagePath: Option<Named>,
    owner: Option<User>,
    tags: seq<Named>,
    created: Timestamp,
    modified: Timestamp,
    added: Timestamp,
    archiveSerialNumber: Option<int>
  )

  /** The inclusive archive-serial-number range the document model declares. */
  datatype AsnRange = AsnRange(min: int, max: int)

  /** One stored index entry; a field paperless writes as `None` is `None` here. */
  datatype IndexRecord = IndexRecord(
    id: int,
    title: string,
    content: string,
    correspondent: Option<string>,
    correspondentId: Option<int>,
    hasCorrespondent: bool,
    tag: Option<string>,
    tagId: Option<string>,
    hasTag: bool,
    typeName: Option<string>,
    typeId: Option<int>,
    hasType: bool,
    created: Timestamp,
    added: Timestamp,
    asn: Option<int>,
    modified: Timestamp,
    path: Option<string>,
    pathId: Option<int>,
    hasPath: bool,
    notes: string,
    owner: Option<string>,
    ownerId: Option<int>,
    hasOwner: bool,
    viewerId: Option<string>
  )

  /** The kinds of index fields in the schema. */
  datatype FieldKind = Numeric | Text | Keyword | Boolean | DateTime

  datatype FieldSpec = FieldSpec(name: string, kind: FieldKind, sortable: bool)

  /** `get_schema()`: the index fields in declaration order. */
  const Schema: seq<FieldSpec> := [
    FieldSpec("id", Numeric, false),
    FieldSpec("title", Text, true),
    FieldSpec("content", Text, false),
    FieldSpec("asn", Numeric, true),
    FieldSpec("correspondent", Text, true),
    FieldSpec("correspondent_id", Numeric, false),
    FieldSpec("has_correspondent", Boolean, false),
    FieldSpec("tag", Keyword, false),
    FieldSpec("tag_id", Keyword, false),
    FieldSpec("has_tag", Boolean, false),
    FieldSpec("type", Text, true),
    FieldSpec("type_id", Numeric, false),
    FieldSpec("has_type", Boolean, false),
    FieldSpec("created", DateTime, true),
    FieldSpec("modified", DateTime, true),
    FieldSpec("added", DateTime, true),
    FieldSpec("path", Text, true),
    FieldSpec("path_id", Numeric, false),
    FieldSpec("has_path", Boolean, false),
    FieldSpec("notes", Text, false),
    FieldSpec("owner", Text, false),
    FieldSpec("owner_id", Numeric, false),
    FieldSpec("has_owner", Boolean, false),
    FieldSpec("viewer_id", Keyword, false)
  ]

  /** The schema declares a sortable field of this name. */
  predicate IsSortableField(name: string) {
    exists k :: 0 <= k < |Schema| && Schema[k].name == name && Schema[k].sortable
  }

  // ---------------------------------------------------------------------
  // update_document
  // ---------------------------------------------------------------------

  function TagNames(tags: seq<Named>): (r: seq<string>)
    ensures |r| == |tags|
    ensures forall k :: 0 <= k < |tags| ==> r[k] == tags[k].name
  {
    seq(|tags|, k requires 0 <= k < |tags| => tags[k].name)
  }

  function IdStrings(ids: seq<int>): (r: seq<string>)
    ensures |r| == |ids|
    ensures forall k :: 0 <= k < |ids| ==> r[k] == IntToString(ids[k])
  {
    seq(|ids|, k requires 0 <= k < |ids| => IntToString(ids[k]))
  }

  function TagIds(tags: seq<Named>): (r: seq<int>)
    ensures |r| == |tags|
    ensures forall k :: 0 <= k < |tags| ==> r[k] == tags[k].id
  {
    seq(|tags|, k requires 0 <= k < |tags| => tags[k].id)
  }

  /** `",".join(...)`. */
  function CommaJoin(parts: seq<string>): string {
    Join(parts, ",")
  }

  /** A Python string used where a value may be `None`: the empty string stands for `None`. */
  function NoneIfEmpty(s: string): (r: Option<string>)
    ensures r.None? <==> s == ""
    ensures r.Some? ==> r.value == s
  {
    if s == "" then None else Some(s)
  }

  /** The archive serial number that is indexed: one outside the range is replaced by 0. */
  function IndexedAsn(asn: Option<int>, range: AsnRange): (r: Option<int>)
    ensures asn.None? ==> r.None?
    ensures asn.Some? && range.min <= asn.value <= range.max ==> r == asn
    ensures asn.Some? && !(range.min <= asn.value <= range.max) ==> r == Some(0)
  {
    match asn
    case None => None
    case Some(a) => if a < range.min || a > range.max then Some(0) else asn
  }

  /** The projection logs an error exactly when the serial number is out of range. */
  predicate AsnRejected(asn: Option<int>, range: AsnRange) {
    asn.Some? && (asn.value < range.min || asn.value > range.max)
  }

  /** The outcome of `update_document`: the record written, and whether the
      out-of-range serial number error was logged. */
  datatype Projection = Projection(record: IndexRecord, asnError: bool)

  /** `update_document(writer, doc)`, with the document's note texts and the
      ids of the users holding view permission passed in. */
  function Project(doc: Document, notes: seq<string>, viewers: seq<int>, range: AsnRange): (p: Projection)
    ensures p.record.id == doc.pk && p.record.title == doc.title && p.record.content == doc.content
    ensures p.asnError <==> AsnRejected(doc.archiveSerialNumber, range)
    ensures p.record.asn == IndexedAsn(doc.archiveSerialNumber, range)
    ensures p.record.hasTag <==> p.record.tag.Some?
    ensures p.record.tagId.None? <==> |doc.tags| == 0
    ensures p.record.hasCorrespondent <==> doc.correspondent.Some?
    ensures p.record.hasType <==> doc.documentType.Some?
    ensures p.record.hasPath <==> doc.storagePath.Some?
    ensures p.record.hasOwner <==> doc.owner.Some?
    ensures p.record.viewerId.None? <==> |viewers| == 0
    ensures p.record.viewerId == NoneIfEmpty(CommaJoin(IdStrings(viewers)))
    ensures p.record.tagId == NoneIfEmpty(CommaJoin(IdStrings(TagIds(doc.tags))))
    ensures p.record.tag == NoneIfEmpty(CommaJoin(TagNames(doc.tags)))
    ensures p.record.ownerId == (if doc.owner.Some? then Some(doc.owner.value.id) else None)
    ensures p.record.correspondentId == (if doc.correspondent.Some? then Some(doc.correspondent.value.id) else None)
    ensures p.record.typeId == (if doc.documentType.Some? then Some(doc.documentType.value.id) else None)
    ensures p.record.pathId == (if doc.storagePath.Some? then Some(doc.storagePath.value.id) else None)
    ensures p.record.created == doc.created && p.record.added == doc.added && p.record.modified == doc.modified
    ensures p.record.correspondent == (if doc.correspondent.Some? then Some(doc.correspondent.value.name) else None)
    ensures p.record.typeName == (if doc.documentType.Some? then Some(doc.documentType.value.name) else None)
    ensures p.record.path == (if doc.storagePath.Some? then Some(doc.storagePath.value.name) else None)
    ensures p.record.owner == (if doc.owner.Some? then Some(doc.owner.value.username) else None)
    ensures p.record.notes == CommaJoin(notes)
  {
    var tags := CommaJoin(TagNames(doc.tags));
    var tagIds := CommaJoin(IdStrings(TagIds(doc.tags)));
    JoinEmpty(IdStrings(TagIds(doc.tags)));
    var viewerIds := CommaJoin(IdStrings(viewers));
    JoinEmpty(IdStrings(viewers));
    var record := IndexRecord(
      id := doc.pk,
      title := doc.title,
      content := doc.content,
      correspondent := if doc.correspondent.Some? then Some(doc.correspondent.value.name) else None,
      correspondentId := if doc.correspondent.Some? then Some(doc.correspondent.value.id) else None,
      hasCorrespondent := doc.correspondent.Some?,
      tag := NoneIfEmpty(tags),
      tagId := NoneIfEmpty(tagIds),
      hasTag := |tags| > 0,
      typeName := if doc.documentType.Some? then Some(doc.documentType.value.name) else None,
      typeId := if doc.documentType.Some? then Some(doc.documentType.value.id) else None,
      hasType := doc.documentType.Some?,
      created := doc.created,
      added := doc.added,
      asn := IndexedAsn(doc.archiveSerialNumber, range),
      modified := doc.modified,
      path := if doc.storagePath.Some? then Some(doc.storagePath.value.name) else None,
      pathId := if doc.storagePath.Some? then Some(doc.storagePath.value.id) else None,
      hasPath := doc.storagePath.Some?,
      notes := CommaJoin(notes),
      owner := if doc.owner.Some? then Some(doc.owner.value.username) else None,
      ownerId := if doc.owner.Some? then Some(doc.owner.value.id) else None,
      hasOwner := doc.owner.Some?,
      viewerId := NoneIfEmpty(viewerIds)
    );
    Projection(record, AsnRejected(doc.archiveSerialNumber, range))
  }

  /** A join of non-empty pieces is empty exactly when there are no pieces. */
  lemma {:induction false} JoinEmpty(parts: seq<string>)
    requires forall k :: 0 <= k < |parts| ==> |parts[k]| > 0
    ensures Join(parts, ",") == "" <==> |parts| == 0
  {
    if |parts| > 1 {
      assert |Join(parts, ",")| >= |parts[0]|;
    }
  }

  /** The keyword list of a comma-joined field splits back into the joined
      values: the stored tag ids are the document's tag ids, in order. */
  lemma {:induction false} TagIdsRoundTrip(doc: Document, notes: seq<string>, viewers: seq<int>, range: AsnRange)
    requires |doc.tags| > 0
    ensures var r := Project(doc, notes, viewers, range).record;
      r.tagId.Some? && Split(r.tagId.value, ',') == IdStrings(TagIds(doc.tags))
  {
    IdsSplitBack(TagIds(doc.tags));
  }

  /** The stored viewer ids are the permitted users' ids, in order. */
  lemma {:induction false} ViewerIdsRoundTrip(doc: Document, notes: seq<string>, viewers: seq<int>, range: AsnRange)
    requires |viewers| > 0
    ensures var r := Project(doc, notes, viewers, range).record;
      r.viewerId.Some? && Split(r.viewerId.value, ',') == IdStrings(viewers)
  {
    IdsSplitBack(viewers);
  }

  lemma {:induction false} IdsSplitBack(ids: seq<int>)
    requires |ids| > 0
    ensures Split(CommaJoin(IdStrings(ids)), ',') == IdStrings(ids)
  {
    SplitJoin(IdStrings(ids), ',');
  }

  /** A user id is among the stored viewer keywords exactly when that user may view the document. */
  lemma {:induction false} ViewerKeyword(viewers: seq<int>, user: int)
    requires |viewers| > 0
    ensures IntToString(user) in Split(CommaJoin(IdStrings(viewers)), ',') <==> user in viewers
  {
    IdsSplitBack(viewers);
    var s := IdStrings(viewers);
    if IntToString(user) in s {
      var k :| 0 <= k < |s| && s[k] == IntToString(user);
      IntToStringInjective(viewers[k], user);
    }
    if user in viewers {
      var k :| 0 <= k < |viewers| && viewers[k] == user;
      assert s[k] == IntToString(user);
    }
  }

  // ---------------------------------------------------------------------
  // The index writer: update_document is an upsert keyed by id
  // ---------------------------------------------------------------------

  type Index = map<int, IndexRecord>

  /** `writer.update_document(...)`: replaces any entry with the same id. */
  function Upsert(index: Index, record: IndexRecord): (r: Index)
    ensures record.id in r && r[record.id] == record
    ensures forall id :: id != record.id ==> (id in r <==> id in index)
    ensures forall id :: id != record.id && id in index ==> r[id] == index[id]
  {
    index[record.id := record]
  }

  /** `remove_document_by_id`: `writer.delete_by_term("id", doc_id)`. */
  function RemoveById(index: Index, id: int): (r: Index)
    ensures id !in r
    ensures forall other :: other != id ==> (other in r <==> other in index)
    ensures forall other :: other != id && other in index ==> r[other] == index[other]
  {
    index - {id}
  }

  /** `add_or_update_document`. */
  function AddOrUpdate(index: Index, doc: Document, notes: seq<string>, viewers: seq<int>, range: AsnRange): Index {
    Upsert(index, Project(doc, notes, viewers, range).record)
  }

  /** Indexing then looking the document up by id gives back the projected record. */
  lemma {:induction false} IndexThenLookup(index: Index, doc: Document, notes: seq<string>, viewers: seq<int>, range: AsnRange)
    ensures var r := AddOrUpdate(index, doc, notes, viewers, range);
      doc.pk in r && r[doc.pk] == Project(doc, notes, viewers, range).record
  {
  }

  /** Re-indexing a document leaves one entry for it: the latest projection wins. */
  lemma {:induction false} ReindexReplaces(index: Index, a: Document, b: Document, notes: seq<string>, viewers: seq<int>, range: AsnRange)
    requires a.pk == b.pk
    ensures AddOrUpdate(AddOrUpdate(index, a, notes, viewers, range), b, notes, viewers, range)
         == AddOrUpdate(index, b, notes, viewers, range)
  {
  }

  /** Removing after indexing leaves the index as if the document had never been indexed. */
  lemma {:induction false} IndexThenRemove(index: Index, doc: Document, notes: seq<string>, viewers: seq<int>, range: AsnRange)
    ensures RemoveById(AddOrUpdate(index, doc, notes, viewers, range), doc.pk) == RemoveById(index, doc.pk)
  {
  }

  /** Every stored serial number lies in range, or is 0, or is absent. */
  lemma {:induction false} StoredAsnInRange(doc: Document, notes: seq<string>, viewers: seq<int>, range: AsnRange)
    ensures var a := Project(doc, notes, viewers, range).record.asn;
      a.None? || a.value == 0 || range.min <= a.value <= range.max
  {
  }
}
