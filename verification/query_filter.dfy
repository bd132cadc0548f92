/**
 * The search query compiler of `documents/index.py` (`DelayedQuery`):
 * the filter built from the request's query parameters, with the owner /
 * viewer permission disjunction always attached; the sort-field table; and
 * the query and mask of the full-text and more-like-this variants. A
 * reference evaluation of the filter over an index record states what the
 * filter admits.
 */
module QueryFilter {
  import opened Wrappers
  import opened Strings
  import opened IndexDocument

  /** The value a term compares a field with. */
  datatype Value = VStr(s: string) | VBool(b: bool)

  /** The whoosh query objects the compiler builds. */
  datatype Query =
    | Term(field: string, value: Value)
    | BoostedTerm(field: string, text: string, boost: real)
    | Not(negated: Query)
    | DateRange(field: string, start: Option<Timestamp>, end: Option<Timestamp>)
    | And(conjuncts: seq<Query>)
    | Or(disjuncts: seq<Query>)

  /** The request's query parameters, in order. */
  type Params = seq<(string, string)>

  /** `key in params`. */
  predicate HasKey(params: Params, key: string) {
    exists k :: 0 <= k < |params| && params[k].0 == key
  }

  /** `params[key]`: the value of the first entry with that key. */
  function Lookup(params: Params, key: string): (r: Option<string>)
    ensures r.None? <==> !HasKey(params, key)
    ensures r.Some? ==> exists k :: 0 <= k < |params| && params[k] == (key, r.value)
  {
    if |params| == 0 then None
    else if params[0].0 == key then Some(params[0].1)
    else
      var r := Lookup(params[1..], key);
      assert forall k :: 1 <= k < |params| ==> params[k] == params[1..][k - 1];
      assert HasKey(params, key) ==> HasKey(params[1..], key) by {
        if HasKey(params, key) {
          var k :| 0 <= k < |params| && params[k].0 == key;
          assert params[1..][k - 1].0 == key;
        }
      }
      r
  }

  /** Why building a query raises. */
  datatype QueryError =
    | BadDate(value: string)       // `isoparse` rejects a date parameter
    | MissingParam(key: string)    // `KeyError` on a required parameter
    | BadInteger(value: string)    // `int()` rejects `more_like_id`
    | NoSuchDocument(id: int)      // `Document.DoesNotExist`

  /** `isoparse`: a timestamp, or `None` when the text is not an ISO date. */
  type DateParser = string -> Option<Timestamp>

  // ---------------------------------------------------------------------
  // _get_query_filter
  // ---------------------------------------------------------------------

  function TagTerms(v: string): (r: seq<Query>)
    ensures |r| == |Split(v, ',')|
    ensures forall k :: 0 <= k < |r| ==> r[k] == Term("tag_id", VStr(Split(v, ',')[k]))
  {
    var ids := Split(v, ',');
    seq(|ids|, k requires 0 <= k < |ids| => Term("tag_id", VStr(ids[k])))
  }

  function NotTagTerms(v: string): (r: seq<Query>)
    ensures |r| == |Split(v, ',')|
    ensures forall k :: 0 <= k < |r| ==> r[k] == Not(Term("tag_id", VStr(Split(v, ',')[k])))
  {
    var ids := Split(v, ',');
    seq(|ids|, k requires 0 <= k < |ids| => Not(Term("tag_id", VStr(ids[k]))))
  }

  /** The keys whose value is an ISO date bounding `created` or `added`. */
  predicate IsDateKey(key: string) {
    key in {"created__date__lt", "created__date__gt", "added__date__gt", "added__date__lt"}
  }

  /** The keys the filter understands. */
  predicate IsFilterKey(key: string) {
    || IsDateKey(key)
    || key in {"correspondent__id", "tags__id__all", "tags__id__none", "document_type__id",
               "correspondent__isnull", "is_tagged", "document_type__isnull",
               "storage_path__id", "storage_path__isnull"}
  }

  /** The criteria one query parameter contributes. */
  function Criteria(key: string, v: string, isoparse: DateParser): (r: Result<seq<Query>, QueryError>)
    ensures r.Err? <==> IsDateKey(key) && isoparse(v).None?
    ensures !IsFilterKey(key) ==> r == Ok([])
    ensures r.Ok? && IsFilterKey(key) && key != "tags__id__all" && key != "tags__id__none" ==> |r.value| == 1
    ensures key == "tags__id__all" ==> r == Ok(TagTerms(v))
    ensures key == "tags__id__none" ==> r == Ok(NotTagTerms(v))
  {
    if key == "correspondent__id" then Ok([Term("correspondent_id", VStr(v))])
    else if key == "tags__id__all" then Ok(TagTerms(v))
    else if key == "tags__id__none" then Ok(NotTagTerms(v))
    else if key == "document_type__id" then Ok([Term("type_id", VStr(v))])
    else if key == "correspondent__isnull" then Ok([Term("has_correspondent", VBool(v == "false"))])
    else if key == "is_tagged" then Ok([Term("has_tag", VBool(v == "true"))])
    else if key == "document_type__isnull" then Ok([Term("has_type", VBool(v == "false"))])
    else if IsDateKey(key) then
      match isoparse(v)
      case None => Err(BadDate(v))
      case Some(d) =>
        if key == "created__date__lt" then Ok([DateRange("created", None, Some(d))])
        else if key == "created__date__gt" then Ok([DateRange("created", Some(d), None)])
        else if key == "added__date__gt" then Ok([DateRange("added", Some(d), None)])
        else Ok([DateRange("added", None, Some(d))])
    else if key == "storage_path__id" then Ok([Term("path_id", VStr(v))])
    else if key == "storage_path__isnull" then Ok([Term("has_path", VBool(v == "false"))])
    else Ok([])
  }

  /** The criteria of all parameters, in parameter order; the first bad date raises. */
  function AllCriteria(params: Params, isoparse: DateParser): (r: Result<seq<Query>, QueryError>)
    ensures r.Err? <==> exists k :: 0 <= k < |params| && Criteria(params[k].0, params[k].1, isoparse).Err?
  {
    if |params| == 0 then Ok([])
    else
      assert forall k :: 0 <= k < |params| - 1 ==> params[1..][k] == params[k + 1];
      match Criteria(params[0].0, params[0].1, isoparse)
      case Err(e) => Err(e)
      case Ok(head) =>
        match AllCriteria(params[1..], isoparse)
        case Err(e) => Err(e)
        case Ok(rest) => Ok(head + rest)
  }

  /** Parameters the filter does not understand contribute nothing. */
  lemma {:induction false} UnrecognisedKeysAddNothing(params: Params, isoparse: DateParser)
    requires forall k :: 0 <= k < |params| ==> !IsFilterKey(params[k].0)
    ensures AllCriteria(params, isoparse) == Ok([])
    ensures GetQueryFilter(params, isoparse) == Ok(PermissionFilter(params))
  {
    if |params| > 0 {
      assert forall k :: 0 <= k < |params| - 1 ==> params[1..][k] == params[k + 1];
      UnrecognisedKeysAddNothing(params[1..], isoparse);
      assert Criteria(params[0].0, params[0].1, isoparse) == Ok([]);
      var none: seq<Query> := [];
      assert AllCriteria(params, isoparse) == Ok(none + none);
      assert none + none == none;
    }
  }

  /** The owner / viewer disjunction: unowned documents, plus, when a user is
      given, documents that user owns or may view. */
  function PermissionFilter(params: Params): (r: Query)
    ensures r.Or? && |r.disjuncts| >= 1 && r.disjuncts[0] == Term("has_owner", VBool(false))
    ensures !HasKey(params, "user") ==> r == Or([Term("has_owner", VBool(false))])
    ensures HasKey(params, "user") ==>
      && |r.disjuncts| == 3
      && r.disjuncts[1] == Term("owner_id", VStr(Lookup(params, "user").value))
      && r.disjuncts[2] == Term("viewer_id", VStr(Lookup(params, "user").value))
  {
    var unowned := Term("has_owner", VBool(false));
    match Lookup(params, "user")
    case None => Or([unowned])
    case Some(u) => Or([unowned, Term("owner_id", VStr(u)), Term("viewer_id", VStr(u))])
  }

  /** `_get_query_filter()`. */
  function GetQueryFilter(params: Params, isoparse: DateParser): (r: Result<Query, QueryError>)
    ensures r.Err? <==> AllCriteria(params, isoparse).Err?
    ensures r.Ok? && AllCriteria(params, isoparse).value == [] ==> r.value == PermissionFilter(params)
    ensures r.Ok? && AllCriteria(params, isoparse).value != [] ==>
      r.value == And(AllCriteria(params, isoparse).value + [PermissionFilter(params)])
  {
    var criteria :- AllCriteria(params, isoparse);
    if |criteria| > 0 then Ok(And(criteria + [PermissionFilter(params)]))
    else Ok(PermissionFilter(params))
  }

  // ---------------------------------------------------------------------
  // _get_query_sortedby
  // ---------------------------------------------------------------------

  /** The ordering keys the API accepts and the index fields they sort by. */
  const SortFields: map<string, string> := map[
    "created" := "created",
    "modified" := "modified",
    "added" := "added",
    "title" := "title",
    "correspondent__name" := "correspondent",
    "document_type__name" := "type",
    "archive_serial_number" := "asn"
  ]

  /** `_get_query_sortedby()`: the sort field and whether it is descending. */
  function GetQuerySortedBy(params: Params): (r: (Option<string>, bool))
    ensures !HasKey(params, "ordering") ==> r == (None, false)
    ensures r.0.None? ==> !r.1
    ensures r.0.Some? ==> r.0.value in SortFields.Values
  {
    match Lookup(params, "ordering")
    case None => (None, false)
    case Some(ordering) =>
      var reverse := |ordering| > 0 && ordering[0] == '-';
      var field := if reverse then ordering[1..] else ordering;
      if field in SortFields then (Some(SortFields[field]), reverse) else (None, false)
  }

  /** Ascending and descending orderings of a known key sort by the same field,
      the descending one reversed; an unknown key, with or without `-`, does not sort. */
  lemma {:induction false} SortedByTable(params: Params, key: string)
    requires Lookup(params, "ordering") == Some(key) || Lookup(params, "ordering") == Some("-" + key)
    requires |key| == 0 || key[0] != '-'
    ensures key in SortFields ==>
      GetQuerySortedBy(params) == (Some(SortFields[key]), Lookup(params, "ordering") == Some("-" + key))
    ensures key !in SortFields ==> GetQuerySortedBy(params) == (None, false)
  {
    var o := Lookup(params, "ordering").value;
    if o == "-" + key {
      assert o[1..] == key;
    }
  }

  /** Every field the table sorts by is a sortable field of the schema. */
  lemma {:induction false} SortFieldsSortable(key: string)
    requires key in SortFields
    ensures IsSortableField(SortFields[key])
  {
    var f := SortFields[key];
    var k := if f == "title" then 1 else if f == "asn" then 3 else if f == "correspondent" then 4
      else if f == "type" then 10 else if f == "created" then 13 else if f == "modified" then 14 else 15;
    assert Schema[k].name == f && Schema[k].sortable;
  }

  // ---------------------------------------------------------------------
  // _get_query of the two variants
  // ---------------------------------------------------------------------

  /** What the variants consult and this model does not define: whoosh's
      multi-field query parser (with date plugin), the ORM's document content
      by id, the searcher's document numbers and its key-term extraction. */
  datatype QueryEnv = QueryEnv(
    parseQuery: string -> Query,
    documentContent: int -> Option<string>,
    documentNumber: int -> Option<int>,
    keyTerms: string -> seq<(string, real)>
  )

  datatype Variant = FullText | MoreLikeThis

  /** A query with its mask: the document numbers the search must leave out. */
  datatype Compiled = Compiled(query: Query, mask: Option<set<Option<int>>>)

  function BoostedTerms(kts: seq<(string, real)>): (r: seq<Query>)
    ensures |r| == |kts|
    ensures forall k :: 0 <= k < |kts| ==> r[k] == BoostedTerm("content", kts[k].0, kts[k].1)
  {
    seq(|kts|, k requires 0 <= k < |kts| => BoostedTerm("content", kts[k].0, kts[k].1))
  }

  /** `_get_query()`: the full-text variant parses `query` and masks nothing
      (the spelling correction it computes is discarded); the more-like-this
      variant ORs the boosted key terms of the reference document's content
      and masks that document itself. */
  function GetQuery(variant: Variant, params: Params, env: QueryEnv): (r: Result<Compiled, QueryError>)
    ensures variant == FullText ==>
      (r.Err? <==> !HasKey(params, "query"))
      && (r.Ok? ==> r.value == Compiled(env.parseQuery(Lookup(params, "query").value), None))
    ensures variant == MoreLikeThis ==>
      (r.Ok? <==> && Lookup(params, "more_like_id").Some?
                  && ParseInt(Lookup(params, "more_like_id").value).Some?
                  && env.documentContent(ParseInt(Lookup(params, "more_like_id").value).value).Some?)
    ensures variant == MoreLikeThis && r.Ok? ==>
      var id := ParseInt(Lookup(params, "more_like_id").value).value;
      && r.value.query == Or(BoostedTerms(env.keyTerms(env.documentContent(id).value)))
      && r.value.mask == Some({env.documentNumber(id)})
  {
    match variant
    case FullText =>
      (match Lookup(params, "query")
       case None => Err(MissingParam("query"))
       case Some(q) => Ok(Compiled(env.parseQuery(q), None)))
    case MoreLikeThis =>
      match Lookup(params, "more_like_id")
      case None => Err(MissingParam("more_like_id"))
      case Some(v) =>
        match ParseInt(v)
        case None => Err(BadInteger(v))
        case Some(id) =>
          match env.documentContent(id)
          case None => Err(NoSuchDocument(id))
          case Some(content) =>
            Ok(Compiled(Or(BoostedTerms(env.keyTerms(content))), Some({env.documentNumber(id)})))
  }

  /** The id a client writes as `more_like_id=<id>` reads back: the request
      compiles to that document's key terms with that document masked, or
      fails with `NoSuchDocument` when it is not in the database. */
  lemma MoreLikeIdRoundTrip(params: Params, env: QueryEnv, id: int)
    requires Lookup(params, "more_like_id") == Some(IntToString(id))
    ensures env.documentContent(id).None? ==>
      GetQuery(MoreLikeThis, params, env) == Err(NoSuchDocument(id))
    ensures env.documentContent(id).Some? ==>
      GetQuery(MoreLikeThis, params, env)
        == Ok(Compiled(Or(BoostedTerms(env.keyTerms(env.documentContent(id).value))), Some({env.documentNumber(id)})))
  {
    ParseIntOfIntToString(id);
  }

  // ---------------------------------------------------------------------
  // What a filter admits
  // ---------------------------------------------------------------------

  /** The indexed value of a filterable field. */
  datatype Stored = SNum(n: Option<int>) | SBool(b: bool) | SKeywords(k: Option<string>) | SDate(t: Timestamp) | SOther

  function StoredField(rec: IndexRecord, field: string): Stored {
    if field == "correspondent_id" then SNum(rec.correspondentId)
    else if field == "type_id" then SNum(rec.typeId)
    else if field == "path_id" then SNum(rec.pathId)
    else if field == "owner_id" then SNum(rec.ownerId)
    else if field == "asn" then SNum(rec.asn)
    else if field == "has_correspondent" then SBool(rec.hasCorrespondent)
    else if field == "has_tag" then SBool(rec.hasTag)
    else if field == "has_type" then SBool(rec.hasType)
    else if field == "has_path" then SBool(rec.hasPath)
    else if field == "has_owner" then SBool(rec.hasOwner)
    else if field == "tag_id" then SKeywords(rec.tagId)
    else if field == "viewer_id" then SKeywords(rec.viewerId)
    else if field == "created" then SDate(rec.created)
    else if field == "added" then SDate(rec.added)
    else if field == "modified" then SDate(rec.modified)
    else SOther
  }

  /** A term holds when a numeric field equals the number the text parses to,
      a boolean field equals the boolean, or a comma-keyword field lists the text. */
  predicate TermHolds(stored: Stored, value: Value) {
    match (stored, value)
    case (SNum(Some(n)), VStr(s)) => ParseInt(s) == Some(n)
    case (SBool(b), VBool(x)) => b == x
    case (SKeywords(Some(k)), VStr(s)) => s in Split(k, ',')
    case _ => false
  }

  /** Whether an index record satisfies a query (inclusive date bounds); text
      terms, which only the scoring query holds, are judged by `textHas`. */
  predicate Eval(q: Query, rec: IndexRecord, textHas: (string, string) -> bool)
    decreases q
  {
    match q
    case Term(f, v) => TermHolds(StoredField(rec, f), v)
    case BoostedTerm(f, t, _) => textHas(f, t)
    case Not(n) => !Eval(n, rec, textHas)
    case DateRange(f, lo, hi) =>
      (match StoredField(rec, f)
       case SDate(t) => (lo.None? || lo.value <= t) && (hi.None? || t <= hi.value)
       case _ => false)
    case And(qs) => forall k :: 0 <= k < |qs| ==> Eval(qs[k], rec, textHas)
    case Or(qs) => exists k :: 0 <= k < |qs| && Eval(qs[k], rec, textHas)
  }

  /** The permission disjunction admits an indexed document exactly when it
      has no owner, or a user is given who owns it or holds view permission on it. */
  lemma {:induction false} PermissionAdmits(doc: Document, notes: seq<string>, viewers: seq<int>, range: AsnRange,
                         params: Params, user: int, textHas: (string, string) -> bool)
    requires Lookup(params, "user") == Some(IntToString(user))
    ensures Eval(PermissionFilter(params), Project(doc, notes, viewers, range).record, textHas)
        <==> doc.owner.None? || doc.owner.value.id == user || user in viewers
  {
    PermissionOnRecord(params, user, Project(doc, notes, viewers, range).record, doc, viewers, textHas);
  }

  /** `PermissionAdmits` for any record whose owner and viewer fields are those of the document. */
  lemma {:induction false} PermissionOnRecord(params: Params, user: int, rec: IndexRecord, doc: Document,
                                              viewers: seq<int>, textHas: (string, string) -> bool)
    requires Lookup(params, "user") == Some(IntToString(user))
    requires rec.hasOwner <==> doc.owner.Some?
    requires rec.ownerId == (if doc.owner.Some? then Some(doc.owner.value.id) else None)
    requires rec.viewerId == NoneIfEmpty(CommaJoin(IdStrings(viewers)))
    ensures Eval(PermissionFilter(params), rec, textHas)
        <==> doc.owner.None? || doc.owner.value.id == user || user in viewers
  {
    var u := IntToString(user);
    var t0, t1, t2 := Term("has_owner", VBool(false)), Term("owner_id", VStr(u)), Term("viewer_id", VStr(u));
    assert PermissionFilter(params) == Or([t0, t1, t2]);
    EvalOr3(t0, t1, t2, rec, textHas);
    UnownedTerm(rec, doc, textHas);
    OwnerTerm(rec, doc, user, textHas);
    ViewerTerm(rec, viewers, user, textHas);
  }

  lemma EvalOr3(a: Query, b: Query, c: Query, rec: IndexRecord, textHas: (string, string) -> bool)
    ensures Eval(Or([a, b, c]), rec, textHas) <==> Eval(a, rec, textHas) || Eval(b, rec, textHas) || Eval(c, rec, textHas)
  {
    var qs := [a, b, c];
    assert qs[0] == a && qs[1] == b && qs[2] == c;
  }

  lemma {:induction false} UnownedTerm(rec: IndexRecord, doc: Document, textHas: (string, string) -> bool)
    requires rec.hasOwner <==> doc.owner.Some?
    ensures Eval(Term("has_owner", VBool(false)), rec, textHas) <==> doc.owner.None?
  {
    assert StoredField(rec, "has_owner") == SBool(rec.hasOwner);
  }

  lemma {:induction false} OwnerTerm(rec: IndexRecord, doc: Document, user: int, textHas: (string, string) -> bool)
    requires rec.ownerId == (if doc.owner.Some? then Some(doc.owner.value.id) else None)
    ensures Eval(Term("owner_id", VStr(IntToString(user))), rec, textHas)
        <==> doc.owner.Some? && doc.owner.value.id == user
  {
    var u := IntToString(user);
    assert Eval(Term("owner_id", VStr(u)), rec, textHas) == TermHolds(SNum(rec.ownerId), VStr(u)) by {
      assert StoredField(rec, "owner_id") == SNum(rec.ownerId);
    }
    assert TermHolds(SNum(rec.ownerId), VStr(u)) <==> rec.ownerId == Some(user) by {
      ParseIntOfIntToString(user);
    }
  }

  lemma {:induction false} ViewerTerm(rec: IndexRecord, viewers: seq<int>, user: int, textHas: (string, string) -> bool)
    requires rec.viewerId == NoneIfEmpty(CommaJoin(IdStrings(viewers)))
    ensures Eval(Term("viewer_id", VStr(IntToString(user))), rec, textHas) <==> user in viewers
  {
    assert StoredField(rec, "viewer_id") == SKeywords(rec.viewerId);
    JoinEmpty(IdStrings(viewers));
    if |viewers| > 0 {
      ViewerKeyword(viewers, user);
    }
  }

  /** Without a user, the permission disjunction admits only unowned documents. */
  lemma {:induction false} NoUserOnlyUnowned(doc: Document, notes: seq<string>, viewers: seq<int>, range: AsnRange,
                          params: Params, textHas: (string, string) -> bool)
    requires !HasKey(params, "user")
    ensures Eval(PermissionFilter(params), Project(doc, notes, viewers, range).record, textHas)
        <==> doc.owner.None?
  {
    var rec := Project(doc, notes, viewers, range).record;
    assert Eval(PermissionFilter(params).disjuncts[0], rec, textHas) <==> doc.owner.None?;
  }

  /** Whatever the parameters, the compiled filter admits a record only if the
      permission disjunction does, and then exactly when every criterion holds. */
  lemma {:induction false} FilterEnforcesPermission(params: Params, isoparse: DateParser, q: Query,
                                                    rec: IndexRecord, textHas: (string, string) -> bool)
    requires GetQueryFilter(params, isoparse) == Ok(q)
    ensures Eval(q, rec, textHas)
        <==> Eval(PermissionFilter(params), rec, textHas)
             && forall c :: c in AllCriteria(params, isoparse).value ==> Eval(c, rec, textHas)
  {
    var criteria := AllCriteria(params, isoparse).value;
    var p := PermissionFilter(params);
    if |criteria| > 0 {
      EvalAndLast(criteria, p, rec, textHas);
    }
  }

  /** A conjunction with one more conjunct at the end. */
  lemma {:induction false} EvalAndLast(cs: seq<Query>, last: Query, rec: IndexRecord, textHas: (string, string) -> bool)
    ensures Eval(And(cs + [last]), rec, textHas)
        <==> Eval(last, rec, textHas) && forall c :: c in cs ==> Eval(c, rec, textHas)
  {
    var all := cs + [last];
    assert forall k :: 0 <= k < |cs| ==> all[k] == cs[k];
    assert all[|cs|] == last;
    if forall k :: 0 <= k < |all| ==> Eval(all[k], rec, textHas) {
      forall c | c in cs
        ensures Eval(c, rec, textHas)
      {
        var k :| 0 <= k < |cs| && cs[k] == c;
        assert all[k] == c;
      }
    }
    if Eval(last, rec, textHas) && forall c :: c in cs ==> Eval(c, rec, textHas) {
      forall k | 0 <= k < |all|
        ensures Eval(all[k], rec, textHas)
      {
        if k < |cs| {
          assert cs[k] in cs;
        }
      }
    }
    assert Eval(And(all), rec, textHas) <==> forall k :: 0 <= k < |all| ==> Eval(all[k], rec, textHas);
  }

  /** A `tag_id` term holds exactly when the record's tag keywords list the id. */
  lemma TagTermHolds(id: string, rec: IndexRecord, textHas: (string, string) -> bool)
    ensures Eval(Term("tag_id", VStr(id)), rec, textHas) <==> rec.tagId.Some? && id in Split(rec.tagId.value, ',')
  {
    assert StoredField(rec, "tag_id") == SKeywords(rec.tagId);
  }

  /** Every query of `qs` holds: the conjunction the criteria list stands for. */
  predicate AllHold(qs: seq<Query>, rec: IndexRecord, textHas: (string, string) -> bool) {
    forall k :: 0 <= k < |qs| ==> Eval(qs[k], rec, textHas)
  }

  predicate AllListed(ids: seq<string>, listed: seq<string>) {
    forall id :: id in ids ==> id in listed
  }

  predicate NoneListed(ids: seq<string>, listed: seq<string>) {
    forall id :: id in ids ==> id !in listed
  }

  /** `tags__id__all` admits a record exactly when its tag ids include every listed id. */
  lemma {:induction false} AllTagsCriterion(v: string, rec: IndexRecord, textHas: (string, string) -> bool)
    ensures AllHold(TagTerms(v), rec, textHas)
        <==> rec.tagId.Some? && AllListed(Split(v, ','), Split(rec.tagId.value, ','))
  {
    if rec.tagId.Some? {
      forall k | 0 <= k < |TagTerms(v)|
        ensures Eval(TagTerms(v)[k], rec, textHas) <==> Split(v, ',')[k] in Split(rec.tagId.value, ',')
      {
        TagTermHolds(Split(v, ',')[k], rec, textHas);
      }
      HoldsIffAllIn(TagTerms(v), Split(v, ','), Split(rec.tagId.value, ','), rec, textHas);
    } else {
      TagTermHolds(Split(v, ',')[0], rec, textHas);
    }
  }

  /** `tags__id__none` admits a record exactly when none of the listed ids is among its tag ids. */
  lemma {:induction false} NoTagsCriterion(v: string, rec: IndexRecord, textHas: (string, string) -> bool)
    ensures AllHold(NotTagTerms(v), rec, textHas)
        <==> rec.tagId.None? || NoneListed(Split(v, ','), Split(rec.tagId.value, ','))
  {
    if rec.tagId.Some? {
      forall k | 0 <= k < |NotTagTerms(v)|
        ensures Eval(NotTagTerms(v)[k], rec, textHas) <==> Split(v, ',')[k] !in Split(rec.tagId.value, ',')
      {
        TagTermHolds(Split(v, ',')[k], rec, textHas);
      }
      HoldsIffNoneIn(NotTagTerms(v), Split(v, ','), Split(rec.tagId.value, ','), rec, textHas);
    } else {
      forall k | 0 <= k < |NotTagTerms(v)|
        ensures Eval(NotTagTerms(v)[k], rec, textHas)
      {
        TagTermHolds(Split(v, ',')[k], rec, textHas);
      }
    }
  }

  /** Queries that each hold exactly when the matching id is listed all hold exactly when every id is listed. */
  lemma HoldsIffAllIn(terms: seq<Query>, ids: seq<string>, listed: seq<string>, rec: IndexRecord,
                      textHas: (string, string) -> bool)
    requires |terms| == |ids|
    requires forall k :: 0 <= k < |terms| ==> (Eval(terms[k], rec, textHas) <==> ids[k] in listed)
    ensures AllHold(terms, rec, textHas) <==> AllListed(ids, listed)
  {
    if AllHold(terms, rec, textHas) {
      forall id | id in ids
        ensures id in listed
      {
        var k :| 0 <= k < |ids| && ids[k] == id;
      }
    }
  }

  /** Queries that each hold exactly when the matching id is unlisted all hold exactly when no id is listed. */
  lemma HoldsIffNoneIn(terms: seq<Query>, ids: seq<string>, listed: seq<string>, rec: IndexRecord,
                       textHas: (string, string) -> bool)
    requires |terms| == |ids|
    requires forall k :: 0 <= k < |terms| ==> (Eval(terms[k], rec, textHas) <==> ids[k] !in listed)
    ensures AllHold(terms, rec, textHas) <==> NoneListed(ids, listed)
  {
    if AllHold(terms, rec, textHas) {
      forall id | id in ids
        ensures id !in listed
      {
        var k :| 0 <= k < |ids| && ids[k] == id;
      }
    }
  }

  // ---------------------------------------------------------------------
  // What each parameter admits
  // ---------------------------------------------------------------------

  /** The criteria of one parameter can be built and all hold of the record. */
  predicate CriteriaHold(key: string, v: string, isoparse: DateParser, rec: IndexRecord,
                         textHas: (string, string) -> bool) {
    match Criteria(key, v, isoparse)
    case Ok(cs) => AllHold(cs, rec, textHas)
    case Err(_) => false
  }

  /** `is_tagged` asks for a tag exactly when its value is `"true"`; each
      `*__isnull` asks for the relation exactly when its value is `"false"`. */
  lemma FlagCriteria(v: string, isoparse: DateParser, rec: IndexRecord, textHas: (string, string) -> bool)
    ensures CriteriaHold("is_tagged", v, isoparse, rec, textHas) <==> rec.hasTag == (v == "true")
    ensures CriteriaHold("correspondent__isnull", v, isoparse, rec, textHas) <==> rec.hasCorrespondent == (v == "false")
    ensures CriteriaHold("document_type__isnull", v, isoparse, rec, textHas) <==> rec.hasType == (v == "false")
    ensures CriteriaHold("storage_path__isnull", v, isoparse, rec, textHas) <==> rec.hasPath == (v == "false")
  {
    IsTaggedHolds(v, isoparse, rec, textHas);
    CorrespondentIsNullHolds(v, isoparse, rec, textHas);
    TypeIsNullHolds(v, isoparse, rec, textHas);
    PathIsNullHolds(v, isoparse, rec, textHas);
  }

  /** The `*__id` keys admit a record whose related object's id is the number the value parses to. */
  lemma IdCriteria(v: string, isoparse: DateParser, rec: IndexRecord, textHas: (string, string) -> bool)
    ensures CriteriaHold("correspondent__id", v, isoparse, rec, textHas) <==> rec.correspondentId.Some? && ParseInt(v) == rec.correspondentId
    ensures CriteriaHold("document_type__id", v, isoparse, rec, textHas) <==> rec.typeId.Some? && ParseInt(v) == rec.typeId
    ensures CriteriaHold("storage_path__id", v, isoparse, rec, textHas) <==> rec.pathId.Some? && ParseInt(v) == rec.pathId
  {
    CorrespondentIdHolds(v, isoparse, rec, textHas);
    TypeIdHolds(v, isoparse, rec, textHas);
    PathIdHolds(v, isoparse, rec, textHas);
  }

  /** The date keys raise on a value `isoparse` rejects, and otherwise bound
      `created` or `added` by the parsed date, the bound included. */
  lemma DateCriteria(v: string, isoparse: DateParser, rec: IndexRecord, textHas: (string, string) -> bool)
    ensures CriteriaHold("created__date__lt", v, isoparse, rec, textHas) <==> isoparse(v).Some? && rec.created <= isoparse(v).value
    ensures CriteriaHold("created__date__gt", v, isoparse, rec, textHas) <==> isoparse(v).Some? && isoparse(v).value <= rec.created
    ensures CriteriaHold("added__date__lt", v, isoparse, rec, textHas) <==> isoparse(v).Some? && rec.added <= isoparse(v).value
    ensures CriteriaHold("added__date__gt", v, isoparse, rec, textHas) <==> isoparse(v).Some? && isoparse(v).value <= rec.added
  {
    CreatedBeforeHolds(v, isoparse, rec, textHas);
    CreatedAfterHolds(v, isoparse, rec, textHas);
    AddedBeforeHolds(v, isoparse, rec, textHas);
    AddedAfterHolds(v, isoparse, rec, textHas);
  }

  /** `tags__id__all` asks for every listed tag, `tags__id__none` for none of them. */
  lemma TagListCriteria(v: string, isoparse: DateParser, rec: IndexRecord, textHas: (string, string) -> bool)
    ensures CriteriaHold("tags__id__all", v, isoparse, rec, textHas)
        <==> rec.tagId.Some? && AllListed(Split(v, ','), Split(rec.tagId.value, ','))
    ensures CriteriaHold("tags__id__none", v, isoparse, rec, textHas)
        <==> rec.tagId.None? || NoneListed(Split(v, ','), Split(rec.tagId.value, ','))
  {
    AllTagsCriterion(v, rec, textHas);
    NoTagsCriterion(v, rec, textHas);
  }

  /** A key the filter does not understand admits every record. */
  lemma OtherCriteria(key: string, v: string, isoparse: DateParser, rec: IndexRecord, textHas: (string, string) -> bool)
    requires !IsFilterKey(key)
    ensures CriteriaHold(key, v, isoparse, rec, textHas)
  {
  }

  // One lemma per recognised key: its criterion and the stored field it reads.

  lemma IsTaggedHolds(v: string, isoparse: DateParser, rec: IndexRecord, textHas: (string, string) -> bool)
    ensures CriteriaHold("is_tagged", v, isoparse, rec, textHas) <==> rec.hasTag == (v == "true")
  {
    CriteriaIsTagged(v, isoparse);
    SingleHolds(Term("has_tag", VBool(v == "true")), rec, textHas);
    assert StoredField(rec, "has_tag") == SBool(rec.hasTag);
  }

  lemma CorrespondentIsNullHolds(v: string, isoparse: DateParser, rec: IndexRecord, textHas: (string, string) -> bool)
    ensures CriteriaHold("correspondent__isnull", v, isoparse, rec, textHas) <==> rec.hasCorrespondent == (v == "false")
  {
    CriteriaCorrespondentIsNull(v, isoparse);
    SingleHolds(Term("has_correspondent", VBool(v == "false")), rec, textHas);
    assert StoredField(rec, "has_correspondent") == SBool(rec.hasCorrespondent);
  }

  lemma TypeIsNullHolds(v: string, isoparse: DateParser, rec: IndexRecord, textHas: (string, string) -> bool)
    ensures CriteriaHold("document_type__isnull", v, isoparse, rec, textHas) <==> rec.hasType == (v == "false")
  {
    CriteriaTypeIsNull(v, isoparse);
    SingleHolds(Term("has_type", VBool(v == "false")), rec, textHas);
    assert StoredField(rec, "has_type") == SBool(rec.hasType);
  }

  lemma PathIsNullHolds(v: string, isoparse: DateParser, rec: IndexRecord, textHas: (string, string) -> bool)
    ensures CriteriaHold("storage_path__isnull", v, isoparse, rec, textHas) <==> rec.hasPath == (v == "false")
  {
    CriteriaPathIsNull(v, isoparse);
    SingleHolds(Term("has_path", VBool(v == "false")), rec, textHas);
    assert StoredField(rec, "has_path") == SBool(rec.hasPath);
  }

  lemma CorrespondentIdHolds(v: string, isoparse: DateParser, rec: IndexRecord, textHas: (string, string) -> bool)
    ensures CriteriaHold("correspondent__id", v, isoparse, rec, textHas) <==> rec.correspondentId.Some? && ParseInt(v) == rec.correspondentId
  {
    CriteriaCorrespondentId(v, isoparse);
    SingleHolds(Term("correspondent_id", VStr(v)), rec, textHas);
    assert StoredField(rec, "correspondent_id") == SNum(rec.correspondentId);
  }

  lemma TypeIdHolds(v: string, isoparse: DateParser, rec: IndexRecord, textHas: (string, string) -> bool)
    ensures CriteriaHold("document_type__id", v, isoparse, rec, textHas) <==> rec.typeId.Some? && ParseInt(v) == rec.typeId
  {
    CriteriaTypeId(v, isoparse);
    SingleHolds(Term("type_id", VStr(v)), rec, textHas);
    assert StoredField(rec, "type_id") == SNum(rec.typeId);
  }

  lemma PathIdHolds(v: string, isoparse: DateParser, rec: IndexRecord, textHas: (string, string) -> bool)
    ensures CriteriaHold("storage_path__id", v, isoparse, rec, textHas) <==> rec.pathId.Some? && ParseInt(v) == rec.pathId
  {
    CriteriaPathId(v, isoparse);
    SingleHolds(Term("path_id", VStr(v)), rec, textHas);
    assert StoredField(rec, "path_id") == SNum(rec.pathId);
  }

  lemma CreatedBeforeHolds(v: string, isoparse: DateParser, rec: IndexRecord, textHas: (string, string) -> bool)
    ensures CriteriaHold("created__date__lt", v, isoparse, rec, textHas) <==> isoparse(v).Some? && rec.created <= isoparse(v).value
  {
    if isoparse(v).Some? {
      CriteriaCreatedBefore(v, isoparse);
      SingleHolds(DateRange("created", None, isoparse(v)), rec, textHas);
      assert StoredField(rec, "created") == SDate(rec.created);
    }
  }

  lemma CreatedAfterHolds(v: string, isoparse: DateParser, rec: IndexRecord, textHas: (string, string) -> bool)
    ensures CriteriaHold("created__date__gt", v, isoparse, rec, textHas) <==> isoparse(v).Some? && isoparse(v).value <= rec.created
  {
    if isoparse(v).Some? {
      CriteriaCreatedAfter(v, isoparse);
      SingleHolds(DateRange("created", isoparse(v), None), rec, textHas);
      assert StoredField(rec, "created") == SDate(rec.created);
    }
  }

  lemma AddedBeforeHolds(v: string, isoparse: DateParser, rec: IndexRecord, textHas: (string, string) -> bool)
    ensures CriteriaHold("added__date__lt", v, isoparse, rec, textHas) <==> isoparse(v).Some? && rec.added <= isoparse(v).value
  {
    if isoparse(v).Some? {
      CriteriaAddedBefore(v, isoparse);
      SingleHolds(DateRange("added", None, isoparse(v)), rec, textHas);
      assert StoredField(rec, "added") == SDate(rec.added);
    }
  }

  lemma AddedAfterHolds(v: string, isoparse: DateParser, rec: IndexRecord, textHas: (string, string) -> bool)
    ensures CriteriaHold("added__date__gt", v, isoparse, rec, textHas) <==> isoparse(v).Some? && isoparse(v).value <= rec.added
  {
    if isoparse(v).Some? {
      CriteriaAddedAfter(v, isoparse);
      SingleHolds(DateRange("added", isoparse(v), None), rec, textHas);
      assert StoredField(rec, "added") == SDate(rec.added);
    }
  }

  // The criterion of each recognised key.

  lemma CriteriaIsTagged(v: string, isoparse: DateParser)
    ensures Criteria("is_tagged", v, isoparse) == Ok([Term("has_tag", VBool(v == "true"))])
  {
  }

  lemma CriteriaCorrespondentIsNull(v: string, isoparse: DateParser)
    ensures Criteria("correspondent__isnull", v, isoparse) == Ok([Term("has_correspondent", VBool(v == "false"))])
  {
  }

  lemma CriteriaTypeIsNull(v: string, isoparse: DateParser)
    ensures Criteria("document_type__isnull", v, isoparse) == Ok([Term("has_type", VBool(v == "false"))])
  {
  }

  lemma CriteriaPathIsNull(v: string, isoparse: DateParser)
    ensures Criteria("storage_path__isnull", v, isoparse) == Ok([Term("has_path", VBool(v == "false"))])
  {
  }

  lemma CriteriaCorrespondentId(v: string, isoparse: DateParser)
    ensures Criteria("correspondent__id", v, isoparse) == Ok([Term("correspondent_id", VStr(v))])
  {
  }

  lemma CriteriaTypeId(v: string, isoparse: DateParser)
    ensures Criteria("document_type__id", v, isoparse) == Ok([Term("type_id", VStr(v))])
  {
  }

  lemma CriteriaPathId(v: string, isoparse: DateParser)
    ensures Criteria("storage_path__id", v, isoparse) == Ok([Term("path_id", VStr(v))])
  {
  }

  lemma CriteriaCreatedBefore(v: string, isoparse: DateParser)
    requires isoparse(v).Some?
    ensures Criteria("created__date__lt", v, isoparse) == Ok([DateRange("created", None, isoparse(v))])
  {
  }

  lemma CriteriaCreatedAfter(v: string, isoparse: DateParser)
    requires isoparse(v).Some?
    ensures Criteria("created__date__gt", v, isoparse) == Ok([DateRange("created", isoparse(v), None)])
  {
  }

  lemma CriteriaAddedBefore(v: string, isoparse: DateParser)
    requires isoparse(v).Some?
    ensures Criteria("added__date__lt", v, isoparse) == Ok([DateRange("added", None, isoparse(v))])
  {
  }

  lemma CriteriaAddedAfter(v: string, isoparse: DateParser)
    requires isoparse(v).Some?
    ensures Criteria("added__date__gt", v, isoparse) == Ok([DateRange("added", isoparse(v), None)])
  {
  }

  lemma SingleHolds(q: Query, rec: IndexRecord, textHas: (string, string) -> bool)
    ensures AllHold([q], rec, textHas) <==> Eval(q, rec, textHas)
  {
    assert [q][0] == q;
  }

  /** The collected criteria all hold exactly when every parameter's own criteria do:
      the list is their concatenation in parameter order, nothing dropped or added. */
  lemma {:induction false} AllCriteriaHold(params: Params, isoparse: DateParser, rec: IndexRecord,
                                           textHas: (string, string) -> bool)
    requires AllCriteria(params, isoparse).Ok?
    ensures AllHold(AllCriteria(params, isoparse).value, rec, textHas)
        <==> forall k :: 0 <= k < |params| ==> CriteriaHold(params[k].0, params[k].1, isoparse, rec, textHas)
  {
    if |params| > 0 {
      var head := Criteria(params[0].0, params[0].1, isoparse).value;
      var tail := params[1..];
      assert forall k :: 0 <= k < |tail| ==> tail[k] == params[k + 1];
      AllCriteriaHold(tail, isoparse, rec, textHas);
      AllHoldAppend(head, AllCriteria(tail, isoparse).value, rec, textHas);
      if forall k :: 1 <= k < |params| ==> CriteriaHold(params[k].0, params[k].1, isoparse, rec, textHas) {
        forall k | 0 <= k < |tail|
          ensures CriteriaHold(tail[k].0, tail[k].1, isoparse, rec, textHas)
        {
          assert tail[k] == params[k + 1];
        }
      }
    }
  }

  lemma AllHoldAppend(a: seq<Query>, b: seq<Query>, rec: IndexRecord, textHas: (string, string) -> bool)
    ensures AllHold(a + b, rec, textHas) <==> AllHold(a, rec, textHas) && AllHold(b, rec, textHas)
  {
    if AllHold(a, rec, textHas) && AllHold(b, rec, textHas) {
      forall k | 0 <= k < |a + b|
        ensures Eval((a + b)[k], rec, textHas)
      {
        if k >= |a| {
          assert (a + b)[k] == b[k - |a|];
        }
      }
    }
    if AllHold(a + b, rec, textHas) {
      forall k | 0 <= k < |a|
        ensures Eval(a[k], rec, textHas)
      {
        assert (a + b)[k] == a[k];
      }
      forall k | 0 <= k < |b|
        ensures Eval(b[k], rec, textHas)
      {
        assert (a + b)[|a| + k] == b[k];
      }
    }
  }

  /** The compiled filter admits a record exactly when the permission
      disjunction does and every parameter's criteria hold of it. */
  lemma {:induction false} FilterMeaning(params: Params, isoparse: DateParser, q: Query,
                                         rec: IndexRecord, textHas: (string, string) -> bool)
    requires GetQueryFilter(params, isoparse) == Ok(q)
    ensures Eval(q, rec, textHas)
        <==> Eval(PermissionFilter(params), rec, textHas)
             && forall k :: 0 <= k < |params| ==> CriteriaHold(params[k].0, params[k].1, isoparse, rec, textHas)
  {
    FilterEnforcesPermission(params, isoparse, q, rec, textHas);
    AllCriteriaHold(params, isoparse, rec, textHas);
    AllHoldMembers(AllCriteria(params, isoparse).value, rec, textHas);
  }

  /** A conjunction holds iff each of its members does. */
  lemma AllHoldMembers(qs: seq<Query>, rec: IndexRecord, textHas: (string, string) -> bool)
    ensures AllHold(qs, rec, textHas) <==> forall c :: c in qs ==> Eval(c, rec, textHas)
  {
    if AllHold(qs, rec, textHas) {
      forall c | c in qs
        ensures Eval(c, rec, textHas)
      {
        var k :| 0 <= k < |qs| && qs[k] == c;
      }
    }
    if forall c :: c in qs ==> Eval(c, rec, textHas) {
      forall k | 0 <= k < |qs|
        ensures Eval(qs[k], rec, textHas)
      {
        assert qs[k] in qs;
      }
    }
  }


  /** For an indexed document, `correspondent__id=<id>` admits it exactly when
      its correspondent has that id; likewise for the type and the storage path. */
  lemma ProjectedIdCriteria(doc: Document, notes: seq<string>, viewers: seq<int>, range: AsnRange,
                            id: int, isoparse: DateParser, textHas: (string, string) -> bool)
    ensures CriteriaHold("correspondent__id", IntToString(id), isoparse, Project(doc, notes, viewers, range).record, textHas)
        <==> doc.correspondent.Some? && doc.correspondent.value.id == id
    ensures CriteriaHold("document_type__id", IntToString(id), isoparse, Project(doc, notes, viewers, range).record, textHas)
        <==> doc.documentType.Some? && doc.documentType.value.id == id
    ensures CriteriaHold("storage_path__id", IntToString(id), isoparse, Project(doc, notes, viewers, range).record, textHas)
        <==> doc.storagePath.Some? && doc.storagePath.value.id == id
  {
    IdCriteria(IntToString(id), isoparse, Project(doc, notes, viewers, range).record, textHas);
    ParseIntOfIntToString(id);
  }
}
