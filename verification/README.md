# paperless-ngx core, modelled in Dafny

This project models the pure logic at the heart of paperless-ngx, a document
management system. It covers four parts:

- **The rule-matching engine** (`documents/matching.py`). A correspondent,
  document type, tag or storage path carries a rule: a match string, an
  algorithm (none, any, all, literal, regex, fuzzy, auto) and a
  case-sensitivity flag. `matches` decides whether the rule applies to a
  document's text. The `match_*` functions select every entity whose rule
  matches, or whose id the optional classifier predicted.
  - `_split_match` breaks an ANY/ALL match string into tokens.
  - Each token is escaped text with every space turned into `\s+`, so only a
    small fragment of Python's `re` is ever needed. Module `Pattern` defines
    that fragment: literal characters and whitespace gaps, searched between
    two `\b` word boundaries.
- **The full-text index and its query compiler** (`documents/index.py`).
  - `update_document` projects a document into a flat index record. It
    replaces an out-of-range archive serial number (ASN) by 0.
  - `DelayedQuery` compiles the request's query parameters into a filter
    (`Term` / `Not` / `DateRange` / `And` / `Or`). That filter always carries
    the owner / viewer permission disjunction.
  - `DelayedQuery` also maps the `ordering` parameter to a sort field.
  - The paginated cursor caches pages by start offset. It normalises hit
    scores by the top score of the first unsorted page.
  - A reference evaluator (`QueryFilter.Eval`) says which index records a
    filter admits. It is used to state what the permission filter and the
    tag criteria mean.
- **The REST serialisers' validators** (`documents/serialisers.py`):
  - the 13-entry tag colour table;
  - the hex-colour validator;
  - field pruning;
  - the id-list validators;
  - content truncation;
  - extraction of the related document id from a task result.
- **The e-mail parser's string handling** (`paperless_mail/parsers.py`):
  - `strip_text`;
  - the text `parse` assembles from the headers;
  - the sorted metadata list of `extract_metadata`;
  - the script-tag and `cid:` rewriting of `transform_inline_html`.

Everything the code delegates to a library or to the database is a parameter
(a function value in a datatype), not a body-less declaration:

- Python `re` on user-written patterns;
- `rapidfuzz.partial_ratio`;
- `isoparse`;
- whoosh's `search_page`, query parser and key-term extraction;
- the ORM lookups;
- Tika;
- `format_size` and `strftime`.

Files:

| file | module | models |
|---|---|---|
| `wrappers.dfy` | `Wrappers` | `Option` / `Result` with early return |
| `strings.dfy` | `Strings` | character classes, `strip`, whitespace collapsing, `str.replace` / `re.sub` with an escaped pattern, `join` / `split`, `int` / `str` conversion |
| `pattern.dfy` | `Pattern` | `re.escape` and the escape-only regex fragment the matching rules build |
| `matching.dfy` | `Matching` | `matches`, `_split_match`, `match_*` |
| `index_document.dfy` | `IndexDocument` | the schema, `update_document`, writes and deletes by id |
| `query_filter.dfy` | `QueryFilter` | `_get_query_filter`, `_get_query_sortedby`, the two `_get_query` variants, the reference evaluator |
| `delayed_query.dfy` | `DelayedQuery` | `DelayedQuery.__init__`, `__len__`, `__getitem__` |
| `serialisers.dfy` | `Serialisers` | `ColorField`, `validate_color`, `DynamicFieldsModelSerializer`, the id-list validators, `to_representation`, `get_related_document` |
| `mail.dfy` | `MailParser` | `get_parsed`, `strip_text`, the text of `parse`, `extract_metadata`, `transform_inline_html` |

Where a general description of the system and the code disagree, the model
follows the code:

- **Top hit normalised to 1.** This holds only when the first page fetched
  is unsorted and its top score is non-zero. `not self.first_score` treats a
  stored `0.0` as unset, so a zero top score is replaced by a later page's.
  A sorted first fetch leaves every score `None` until an unsorted fetch
  happens.
- **`__len__`.** It returns the total hit count reported with the page at
  offset 0, not the number of hits on that page.
- **`_split_match` docstring.** It shows the quoted group as `with+quotes`.
  The code produces `with\s+quotes`, and `Matching.SplitMatchTokens` states
  what the code produces.

## Model

| member | source | states |
|---|---|---|
| Matching.Matches | src/documents/matching.py:65-160 | A blank match string gives `False` for every algorithm, including an unsupported one. NONE and AUTO give `False`. A non-blank rule raises exactly when its algorithm is unsupported. ALL holds iff every `_split_match` token is found between word boundaries. ANY holds iff some token is. LITERAL holds iff the whole escaped match string is found between word boundaries. REGEX holds iff the search finds a match, and gives `False` when the pattern does not compile. FUZZY holds iff the partial ratio of the punctuation-free texts (lower-cased for a case-insensitive rule) is at least 90 |
| Matching.AllFound | src/documents/matching.py:80-90 | The ALL loop returns true iff every token is found |
| Matching.FirstFound | src/documents/matching.py:92-97 | The ANY loop stops at the first token found: every earlier token is absent. It finds nothing iff no token is found |
| Matching.SingleWordRulesAgree | src/documents/matching.py:80-113 | For a match string that is one word, with no whitespace or quotes, ALL, ANY and LITERAL rules give the same verdict on every text |
| Matching.AllImpliesAny | src/documents/matching.py:80-97 | An ALL rule that matches a text makes the ANY rule with the same string match it too |
| Matching.TermsOfNonBlank | src/documents/matching.py:174-180 | A match string that is not all whitespace yields at least one term |
| Matching.StripPunctuation | src/documents/matching.py:138-139 | Only word characters and whitespace remain, as a subsequence of the input. A text with nothing else is unchanged |
| Matching.StripPunctuationKeeps | src/documents/matching.py:138-139 | Every occurrence of a word character or whitespace character survives, so the result is exactly the input with everything else dropped |
| Matching.FindTerms | src/documents/matching.py:173-178 | Every term found is either a non-empty, quote-free text that the match string holds between double quotes, or a non-empty whitespace-free run of the match string. The step laws `TermsSpace`, `TermsWord`, `TermsQuoted` and `TermsStrayQuote` together fix the result on every input |
| Matching.TermsSpace | src/documents/matching.py:173 | Whitespace between terms yields no term |
| Matching.TermsWord | src/documents/matching.py:173 | An unquoted word ended by whitespace is exactly one term |
| Matching.TermsQuoted | src/documents/matching.py:173 | A quoted phrase is exactly one term, whatever whitespace it contains |
| Matching.TermsStrayQuote | src/documents/matching.py:173 | A quote with no closing quote after it, or an empty pair `""`, opens no quoted group: the whole non-whitespace run starting there, quotes included, is one term, and scanning goes on after it |
| Matching.StrayQuoteOpen | src/documents/matching.py:173 | The text `"ab` gives the single term `"ab` |
| Matching.StrayQuoteEmptyPair | src/documents/matching.py:173 | The text `"" x` gives the terms `""` and `x` |
| Matching.NormalizeTermShape | src/documents/matching.py:174-177 | A stripped, space-normalised term has no whitespace at either end and no whitespace other than single spaces. It keeps the term's non-whitespace characters in order |
| Matching.NormalizeTermWords | src/documents/matching.py:174-177 | A stripped, space-normalised term is the term's words joined by single spaces, `" ".join(term.split())` |
| Matching.SplitMatchTokens | src/documents/matching.py:175-179 | Every token parses as the literal fragment of its normalised term: each character stands for itself and each space for a `\s+` gap. No token contains a whitespace character |
| Matching.SingleWordSplit | src/documents/matching.py:163-179 | A single word without whitespace or quotes splits into exactly one token, its `re.escape` |
| Matching.SelectMatching | src/documents/matching.py:22-62 | The selection is an order-preserving subsequence of the entities. An entity is in it iff its rule matches or the classifier chose its id. Selection raises iff some entity's rule raises |
| Matching.MatchCorrespondents | src/documents/matching.py:22-29 | In stored order, exactly the correspondents whose rule matches or whose id is the predicted one. With no classifier the selection is rule-based only |
| Matching.MatchDocumentTypes | src/documents/matching.py:32-39 | The same selection for document types |
| Matching.MatchTags | src/documents/matching.py:42-49 | The same selection for tags, with membership in the predicted id list in place of equality |
| Matching.MatchStoragePaths | src/documents/matching.py:52-62 | The same selection for storage paths |
| Pattern.EscapeParses | src/documents/matching.py:102 | `re.escape(s)` is a pattern whose elements are exactly the characters of `s`, taken literally |
| Pattern.TokenPatternParses | src/documents/matching.py:177 | Escaping a normalised term and widening each escaped space to `\s+` gives the term's characters, with each space a whitespace gap |
| Pattern.TokenPatternIsRender | src/documents/matching.py:177 | The escape-then-replace pipeline equals the character-by-character rendering: a backslash escape is never mistaken for an escaped space |
| Pattern.RenderTokenNoSpace | src/documents/matching.py:177 | A token built from a term whose only whitespace is spaces contains no whitespace character |
| IndexDocument.Project | src/documents/index.py:98-144 | The record keeps the document's id, title and content. Each `has_*` flag is true iff the relation is present, and `has_tag` iff the tag-name join is non-empty. `tag_id` is absent iff the document has no tags, and `viewer_id` iff no user may view it. `tag`, `tag_id` and `viewer_id` are the comma-joins. `correspondent_id`, `type_id` and `path_id` are the related objects' ids, absent iff the relation is. `created`, `added` and `modified` are the document's dates. `correspondent`, `type` and `path` are the related objects' names, `owner` is the owner's username, each absent iff the relation is. `notes` is the comma-join of the note texts. The ASN is the range-checked one, and the error is reported iff the ASN is out of range |
| IndexDocument.IndexedAsn | src/documents/index.py:102-113 | An absent ASN stays absent and an in-range ASN is kept. An out-of-range ASN becomes 0 |
| IndexDocument.StoredAsnInRange | src/documents/index.py:102-113 | Every stored ASN is absent, 0, or within the range |
| IndexDocument.JoinEmpty | src/documents/index.py:126-127 | A comma-join of non-empty ids is empty iff there are none |
| IndexDocument.TagIdsRoundTrip | src/documents/index.py:100-127 | Splitting the stored `tag_id` keyword list at commas gives back the document's tag ids, in order |
| IndexDocument.ViewerIdsRoundTrip | src/documents/index.py:114-143 | Splitting the stored `viewer_id` list gives back the permitted users' ids, in order |
| IndexDocument.ViewerKeyword | src/documents/index.py:114-118 | A user's id is among the stored viewer keywords iff that user may view the document |
| IndexDocument.Upsert | src/documents/index.py:119-144 | Writing a record leaves exactly one entry under its id, and every other entry unchanged |
| IndexDocument.RemoveById | src/documents/index.py:151-152 | Deleting by id removes that entry and leaves every other entry unchanged |
| IndexDocument.IndexThenLookup | src/documents/index.py:155-157 | After indexing, the entry under the document's id is its projection |
| IndexDocument.ReindexReplaces | src/documents/index.py:155-157 | Indexing twice leaves only the later projection |
| IndexDocument.IndexThenRemove | src/documents/index.py:155-162 | Removing after indexing leaves the index as if the document had never been indexed |
| QueryFilter.Lookup | src/documents/index.py:206-207 | Looking up a key finds nothing iff the key is absent. Otherwise it returns a value stored under that key |
| QueryFilter.Criteria | src/documents/index.py:171-203 | A parameter raises iff it is a date key whose value `isoparse` rejects. An unrecognised key adds nothing. Every recognised key except the two tag lists adds exactly one criterion. `tags__id__all` adds one `tag_id` term per comma-separated id, and `tags__id__none` one negated term per id |
| QueryFilter.AllCriteria | src/documents/index.py:170-203 | Collecting the criteria raises iff some parameter's criteria raise |
| QueryFilter.FlagCriteria | src/documents/index.py:182-203 | `is_tagged` admits a record iff its `has_tag` equals whether the value is `"true"`. Each `*__isnull` key admits it iff its `has_*` flag equals whether the value is `"false"` |
| QueryFilter.IdCriteria | src/documents/index.py:172-201 | Each `*__id` key admits a record iff the record has that relation and its id is the integer the value parses to |
| QueryFilter.DateCriteria | src/documents/index.py:188-199 | Each date key holds iff `isoparse` accepts the value and the record's `created` or `added` lies on the named side of the parsed date, the date itself included |
| QueryFilter.TagListCriteria | src/documents/index.py:174-179 | `tags__id__all` admits a record iff it has tags and every listed id is among them. `tags__id__none` admits it iff it has no tags or none of the listed ids is among them |
| QueryFilter.OtherCriteria | src/documents/index.py:171-203 | A key the loop does not recognise admits every record |
| QueryFilter.AllCriteriaHold | src/documents/index.py:170-203 | The collected criteria all hold of a record iff each parameter's own criteria hold of it |
| QueryFilter.FilterMeaning | src/documents/index.py:169-215 | The compiled filter admits a record iff the permission disjunction admits it and every parameter's criteria hold of it |
| QueryFilter.ProjectedIdCriteria | src/documents/index.py:172-201 | For an indexed document, `correspondent__id=<id>` admits it iff its correspondent has that id. The same holds for the document type and the storage path |
| QueryFilter.UnrecognisedKeysAddNothing | src/documents/index.py:171-215 | With no recognised key, the filter is exactly the permission disjunction |
| QueryFilter.PermissionFilter | src/documents/index.py:205-210 | The disjunction always starts with `has_owner = False`. It adds `owner_id = user` and `viewer_id = user` exactly when the `user` key is present |
| QueryFilter.GetQueryFilter | src/documents/index.py:169-215 | With no criteria the filter is the permission disjunction. Otherwise it is `And(criteria + [permission])`, with the permission disjunction last. It raises iff collecting the criteria raises |
| QueryFilter.FilterEnforcesPermission | src/documents/index.py:211-215 | The compiled filter admits a record iff the permission disjunction admits it and every criterion holds |
| QueryFilter.PermissionAdmits | src/documents/index.py:205-210 | For a given user, the permission disjunction admits an indexed document iff it has no owner, or the user owns it, or the user holds view permission on it |
| QueryFilter.NoUserOnlyUnowned | src/documents/index.py:205-206 | Without a `user` parameter, only unowned documents are admitted |
| QueryFilter.AllTagsCriterion | src/documents/index.py:174-176 | The `tags__id__all` terms all hold iff the record's tag ids include every listed id |
| QueryFilter.NoTagsCriterion | src/documents/index.py:177-179 | The `tags__id__none` terms all hold iff the record has no tags or none of the listed ids is among them |
| QueryFilter.GetQuerySortedBy | src/documents/index.py:217-242 | No `ordering` key gives `(None, False)`. No sort is never reversed. Any sort field comes from the fixed table |
| QueryFilter.SortedByTable | src/documents/index.py:221-242 | A known key sorts by its table field, reversed iff written with a leading `-`. An unknown key, with or without `-`, gives `(None, False)` |
| QueryFilter.SortFieldsSortable | src/documents/index.py:223-231 | Every field the table sorts by is a sortable field of the index schema |
| QueryFilter.GetQuery | src/documents/index.py:292-327 | The full-text variant fails iff `query` is missing, and otherwise is the parsed query with no mask. The more-like-this variant succeeds iff `more_like_id` is present, parses as an integer and names an existing document. It is then the Or of the content's boosted key terms, masking that document's number |
| QueryFilter.MoreLikeIdRoundTrip | src/documents/index.py:309-327 | A `more_like_id` written as `str(id)` reads back as `id`. The query is then the Or of that document's boosted key terms, masking its document number, or `Document.DoesNotExist` when the document is missing |
| DelayedQuery.Init | src/documents/index.py:244-249 | A new cursor has nothing cached and no first score |
| DelayedQuery.PageNumber | src/documents/index.py:266 | The page number `n` satisfies `(n-1)*size <= start < n*size`, so it is at least 1 for every `start >= 0` |
| DelayedQuery.NextFirstScore | src/documents/index.py:274-275 | A truthy first score is kept. A sorted or empty search leaves it unchanged. Otherwise it becomes the top hit's score |
| DelayedQuery.Normalize | src/documents/index.py:277-285 | Every hit keeps its place and its document number. Its score is present iff the first score is truthy, and it is then the raw score divided by the first score |
| DelayedQuery.Request | src/documents/index.py:259-270 | The search asks for page `floor(start/size)+1` of `size` hits. It uses the query and mask of `_get_query`, the filter of `_get_query_filter` and the sort of `_get_query_sortedby`. It fails iff the query or the filter fails |
| DelayedQuery.SearchEnforcesPermission | src/documents/index.py:259-270 | Every record the sent search's filter admits passes the owner / viewer permission filter |
| DelayedQuery.GetItem | src/documents/index.py:255-289 | A cached offset returns its page and leaves the cursor unchanged. An uncached offset fails iff building the request fails, and a failure leaves the cursor unchanged. Otherwise the new first score is the old one updated from the search results, and the page carries the page number, the total and the hits normalised by that new first score. A computed page is cached under its offset, and nothing else in the cache changes. A truthy first score, or a sorted query, keeps the first score as it was |
| DelayedQuery.Len | src/documents/index.py:251-253 | The length is the hit total of the page at offset 0, which is cached afterwards |
| DelayedQuery.SecondRequestCached | src/documents/index.py:255-257 | Asking twice for the same offset returns the first answer without searching again |
| DelayedQuery.FirstTopHitIsOne | src/documents/index.py:274-285 | On a fresh cursor, the top hit of the first unsorted non-empty page with a non-zero score normalises to 1 |
| DelayedQuery.FirstScoreFixed | src/documents/index.py:274-275 | Once the first score is truthy, no sequence of later requests changes it |
| DelayedQuery.LaterPagesNormalised | src/documents/index.py:274-285 | Once the first score is truthy, a page fetched after any sequence of requests has every raw score divided by that same first score, and keeps each hit's document number |
| DelayedQuery.CachedPagesStay | src/documents/index.py:255-289 | A cached page is never replaced by later requests |
| Serialisers.ToInternalValue | src/documents/serialisers.py:279-283 | A value is accepted iff it equals one of the ids 1..13 under Python's `==` (so `True` is 1 and `2.0` is 2). It then maps to that id's colour. Anything else raises `ValidationError` |
| Serialisers.LookupId | src/documents/serialisers.py:279-283 | In a table numbered 1..n, the first entry whose id equals the value is the one returned. No match raises |
| Serialisers.ToRepresentation | src/documents/serialisers.py:285-289 | A table colour maps to its id, and any other value to 1 |
| Serialisers.ColoursDistinct | src/documents/serialisers.py:263-277 | The 13 colours are pairwise distinct |
| Serialisers.IdRoundTrip | src/documents/serialisers.py:263-289 | `to_representation(to_internal_value(k)) == k` for every id 1..13 |
| Serialisers.ColourRoundTrip | src/documents/serialisers.py:263-289 | A table colour survives the trip to an id and back. Any other colour comes back as colour 1 |
| Serialisers.ColourIdEquality | src/documents/serialisers.py:279-283 | `True` selects colour 1 and `2.0` selects colour 2. The text `"1"` and `False` are refused |
| Serialisers.ValidateColor | src/documents/serialisers.py:348-352 | An accepted colour is returned unchanged and starts with `#` followed by at least six characters. Anything shorter is refused with "Invalid color." |
| Serialisers.ValidateColorExactly | src/documents/serialisers.py:349-350 | A colour is accepted iff it starts with `#` and six hex digits |
| Serialisers.ValidateColorIgnoresTail | src/documents/serialisers.py:349-350 | Anything after an accepted prefix is not looked at |
| Serialisers.TableColoursValid | src/documents/serialisers.py:348-352 | Every legacy table colour passes the validator |
| Serialisers.PruneFields | src/documents/serialisers.py:47-59 | Without `fields` the field list is unchanged. With it, the fields kept are exactly those both declared and requested, in declaration order |
| Serialisers.PruneIdempotent | src/documents/serialisers.py:54-59 | Pruning twice with the same request prunes nothing more |
| Serialisers.PruneAllRequested | src/documents/serialisers.py:54-59 | Requesting every declared field changes nothing |
| Serialisers.CountMatchesIff | src/documents/serialisers.py:516-517 | The count test passes iff every id exists and no id is repeated |
| Serialisers.ValidateIdList | src/documents/serialisers.py:511-520 | A non-list is refused as such, and so is a list holding a non-`int` (`True` included). Otherwise the list is accepted iff every id exists and none is repeated. An accepted list yields its ids in order |
| Serialisers.ValidatePermissionIds | src/documents/serialisers.py:106-124 | No list selects nobody. A list is accepted iff every id exists and none repeats, and it then selects exactly the listed rows |
| Serialisers.RepresentContent | src/documents/serialisers.py:401-405 | Under `truncate_content` a missing `content` entry raises, and present content becomes its prefix of `min(len, 550)` characters. Otherwise the entry is unchanged, present or not |
| Serialisers.TruncatePrunedContent | src/documents/serialisers.py:54-59 | Truncation raises exactly when `fields` was given and does not name `content` |
| Serialisers.TruncationStable | src/documents/serialisers.py:401-405 | Truncating twice equals truncating once, and content of at most 550 characters is never cut |
| Serialisers.FindRelated | src/documents/serialisers.py:894-900 | The search returns the leftmost position where `New document id (\d+) created` matches, or none when there is none |
| Serialisers.GetRelatedDocument | src/documents/serialisers.py:894-904 | A non-success status or a missing result gives `None`. On success, a result is returned iff the pattern matches somewhere. The result is then the digit group of the leftmost match |
| Serialisers.RelatedOfConsumerMessage | src/documents/serialisers.py:894-904 | The consumer's message for a new document yields that document's id, which reads back as the same number |
| MailParser.GetParsed | src/paperless_mail/parsers.py:33-48 | An unreadable message and a message without a sender are refused. Otherwise the message is returned |
| MailParser.StripText | src/paperless_mail/parsers.py:110-113 | The output is the input's words joined by single spaces, `" ".join(text.split())`. So it has no whitespace at either end, no newline and no two adjacent whitespace characters |
| MailParser.SecondSubstitutionNoOp | src/paperless_mail/parsers.py:111-112 | After the first substitution no newline is left, so the second changes nothing |
| MailParser.StripTextIdempotent | src/paperless_mail/parsers.py:110-113 | Stripping stripped text changes nothing |
| MailParser.HeaderSections | src/paperless_mail/parsers.py:117-133 | Subject, From and To always come first, in that order. The CC, BCC and Attachments sections appear iff their lists are non-empty |
| MailParser.HeaderOrder | src/paperless_mail/parsers.py:117-133 | The sections appear in the order Subject, From, To, CC, BCC, Attachments, each at most once |
| MailParser.ParseText | src/paperless_mail/parsers.py:115-138 | The text begins with the Subject section. It ends with the stripped plain-text body, after an empty line |
| MailParser.RenderSectionsLayout | src/paperless_mail/parsers.py:117-133 | The rendered sections are laid out one after the other: each `Heading: value` block followed by an empty line sits at its offset, and nothing else is in between |
| MailParser.ParseTextLayout | src/paperless_mail/parsers.py:115-138 | Every header section appears in order at its offset. After the last one comes `HTML content: ` + the stripped Tika text of the HTML when the HTML is non-empty, then an empty line and the stripped body. With empty HTML, the empty line and the body follow the sections directly |
| MailParser.BodyAfterLastNewline | src/paperless_mail/parsers.py:135-138 | The stripped body is exactly what follows the last newline of the text |
| MailParser.Insert | src/paperless_mail/parsers.py:106 | Inserting into a sorted list keeps it sorted and adds exactly the element |
| MailParser.Sort | src/paperless_mail/parsers.py:106 | The sort by `(prefix, key)` yields a sorted permutation of the list |
| MailParser.ExtractMetadata | src/paperless_mail/parsers.py:60-107 | An unparsable message gives `[]`. Otherwise the result is a sorted permutation of one entry per header plus the attachments and date entries. The attachments and date entries come first, followed by the sorted header entries |
| MailParser.MetadataShape | src/paperless_mail/parsers.py:84-106 | The two entries with the empty prefix sort before every header, attachments before date |
| MailParser.CleanHtmlScript | src/paperless_mail/parsers.py:301-307 | After both substitutions, no `<script` or `</script` remains in any letter case |
| MailParser.CleanHtmlScriptOpen | src/paperless_mail/parsers.py:302-306 | When the first tag in the text is a `<script` in any letter case, the result is the text before it, then `<div hidden `, then the cleaned rest |
| MailParser.CleanHtmlScriptClose | src/paperless_mail/parsers.py:302-306 | When the first tag in the text is a `</script` in any letter case, the result is the text before it, then `</div`, then the cleaned rest |
| MailParser.CleanHtmlScriptPlain | src/paperless_mail/parsers.py:302-306 | A text with neither tag is returned unchanged |
| MailParser.DivShields | src/paperless_mail/parsers.py:302-306 | Neither replacement text can form a script tag together with the text around it |
| MailParser.AlnumOnly | src/paperless_mail/parsers.py:314 | Only letters and digits remain, as a subsequence of the input |
| MailParser.AlnumOnlyCounts | src/paperless_mail/parsers.py:314 | Every occurrence of a letter or digit survives, so the result is exactly the input's letters and digits in order |
| MailParser.CleanName | src/paperless_mail/parsers.py:313-314 | The clean name starts with `cid` and holds only letters and digits |
| MailParser.AlnumOnlyTagged | src/paperless_mail/parsers.py:313-314 | Cleaning `cid:` + id gives `cid` followed by the id's letters and digits |
| MailParser.RewriteCids | src/paperless_mail/parsers.py:312-316 | Rewriting the `cid:` references introduces no script tag |
| MailParser.TransformInlineHtml | src/paperless_mail/parsers.py:299-320 | One file per attachment, in order, under its clean name and holding its payload. Then `index.html` comes last, so there are `attachments + 1` entries. The HTML holds no script tag in any letter case |
| MailParser.TransformKeepsPlainHtml | src/paperless_mail/parsers.py:299-320 | HTML without script tags or attachment references is passed through unchanged |
| Strings.StripEmptyIffAllSpace | src/documents/matching.py:71 | `strip()` gives the empty string iff the text is all whitespace |
| Strings.CollapseWsShape | src/paperless_mail/parsers.py:111 | Collapsing whitespace runs leaves single spaces only and keeps the non-whitespace characters in order |
| Strings.CollapseWsWord | src/paperless_mail/parsers.py:111 | A run without whitespace is kept as it is, whatever follows it |
| Strings.CollapseWsRun | src/paperless_mail/parsers.py:111 | A maximal whitespace run becomes exactly one space |
| Strings.CollapseWsLaw | src/paperless_mail/parsers.py:111 | A word followed by a maximal whitespace run becomes the word and one space |
| Strings.StripCollapseWords | src/paperless_mail/parsers.py:111-113 | Collapsing and then stripping gives the words of the text, `str.split()`, joined by single spaces |
| Strings.WordsOfStrip | src/documents/matching.py:177 | Stripping the ends of a text changes none of its words |
| Strings.CollapseWsIdempotent | src/paperless_mail/parsers.py:111 | Collapsing an already single-spaced text changes nothing |
| Strings.ReplaceAllKeepsFree | src/paperless_mail/parsers.py:302-306 | Replacing every occurrence of a pattern with a text that cannot form the pattern with its surroundings leaves no occurrence |
| Strings.ReplaceAllStep | src/paperless_mail/parsers.py:302-303 | `re.sub` on an escaped pattern copies the text before the leftmost occurrence, writes the replacement for it, and carries on after the occurrence |
| Strings.ReplaceAllNoOccurrence | src/paperless_mail/parsers.py:302-303 | A text with no occurrence of the pattern is returned unchanged |
| Strings.ReplaceAllCopy | src/paperless_mail/parsers.py:302-303 | A prefix in which no occurrence starts is copied unchanged |
| Strings.ShieldedAfter | src/paperless_mail/parsers.py:302-306 | Once an occurrence-free prefix is followed by a replacement text that cannot form the pattern, no occurrence starts before the end of that replacement |
| Strings.Split | src/documents/index.py:175 | `str.split(",")` yields at least one piece, no piece holds a comma, and joining the pieces with commas gives back the text |
| Strings.SplitJoin | src/documents/index.py:99-100 | Splitting a comma-join of comma-free pieces gives back the pieces |
| Strings.ParseIntOfIntToString | src/documents/index.py:209 | The text of an integer parses back to that integer |
| Strings.ParseDigits | src/documents/index.py:311 | The digit part of `int()` is accepted iff it is digits and single underscores, starting and ending with a digit. A plain digit run gives its decimal value |
| Strings.ParseDigitsGrouped | src/documents/index.py:311 | An underscore between two digit runs is ignored, as in `int("1_000") == 1000` |
| Strings.IntToStringInjective | src/documents/index.py:118 | Two integers have the same text iff they are equal |

## Left out

- Character classes are ASCII approximations of Python's Unicode ones:
  - `\w` and `isalnum` are ASCII letters, digits and `_`;
  - lower-casing is ASCII;
  - `\s` is Python's whitespace set below U+0100.

  Non-ASCII letters and the wider Unicode whitespace are not modelled.
- `int()` and the regex class `\d` accept only ASCII digits here. Python also accepts other Unicode decimal digits in both.
- REGEX rules: the result of Python `re` on a user-written pattern is a parameter, with `None` standing for a pattern that does not compile.
- FUZZY rules: `rapidfuzz.partial_ratio` is a parameter.
- `log_reason` and all other logging is left out, except the ASN range error. That error appears as a flag in `IndexDocument.Projection`.
- whoosh itself is a set of parameters: `search_page`, the multi-field parser with its date plugin, `document_number` and `key_terms_from_text`.
- `correct_query` is left out. Its result is discarded by the code.
- Highlighting (fragmenter and formatter) is left out.
- `open_index`, the writer and searcher context managers, and `autocomplete` are filesystem and library plumbing. They are not modelled.
- The whoosh query parser is one fixed parameter for a whole sequence of requests. The code builds a new parser for every `__getitem__`, with `timezone.now()` as the base date for relative dates, so the model freezes the clock.
- `isoparse` is a parameter, and timestamps are opaque integers. `make_aware` and the parse date of a mail are not modelled.
- `IndexDocument.Project` takes the ASN range as an input. `Document.ARCHIVE_SERIAL_NUMBER_MIN` and `..._MAX` live in `documents/models.py`, which is not part of this model.
- ORM lookups are plain inputs:
  - the tag list;
  - note texts;
  - `get_users_with_perms`;
  - the existing ids of a model;
  - document content by id.
- The uniqueness and permission checks of the other serialisers are not modelled.
- `QueryFilter.Lookup`: for a repeated query parameter it returns the first value, while Django's `QueryDict` returns the last. The criteria loop visits every entry rather than each key once. The two agree whenever keys are distinct.
- `DelayedQuery.NextFirstScore`: whoosh's `len(page.results)` is modelled as the reported total, together with a non-empty list of top hits. The top hit is read only when that list is non-empty.
- `TagSerializer.get_text_color` is floating-point luminance and is not modelled.
- `DelayedQuery.Normalize`: hit scores are exact reals, not Python floats, and float rounding in the division by the first score is not modelled. The contract states the quotient itself, so it carries over to floats; an identity such as `(a / b) * b == a` would not, and none is claimed.
- `DelayedQuery.Init`, `DelayedQuery.Valid` and `DelayedQuery.PageNumber` take the page size to be positive, because the caller's paginator supplies it. `__init__` stores any `page_size`, and a page size of 0 makes `__getitem__` raise `ZeroDivisionError` when it computes the page number; that error, and Python's floor division by a negative page size, are not modelled.
- Mail PDF generation, Tika, Gotenberg, HTML cleaning and templates are I/O and are not modelled.
- `format_size` and `strftime` are parameters.
- The caching of `get_parsed` is not modelled: the parsed message is an input.
- `MailParser.Sort` is an insertion sort that keeps equal keys in input order, as Python's stable sort does. The model does not prove stability as a separate property, because `mail.headers` is a dictionary and no two header entries share a key.
- `MailParser.RewriteCids` states only that it introduces no script tag. Python's `str.replace` makes one left-to-right pass, so a reference can survive when a replacement recreates it. For example, for the id `c`, `cid:cid:c` becomes `cidcid:c`, which still holds `cid:c`. The code behaves the same way, so the model copies the single pass.
- `_split_match` docstring example: not stated as a lemma over the literal string. The tokenizer laws (`TermsSpace`, `TermsWord`, `TermsQuoted`, `SplitMatchTokens`) cover it generically.
