/**
 * The paginated search cursor of `documents/index.py` (`DelayedQuery`
 * `__init__`, `__len__`, `__getitem__`): pages are fetched lazily, cached by
 * their start offset, and their hit scores normalised by the top score of
 * the first unsorted page fetched.
 */
module DelayedQuery {
  import opened Wrappers
  import opened QueryFilter
  import opened IndexDocument

  /** A ranked hit as the searcher returns it. */
  datatype Hit = Hit(score: real, docnum: int)

  /** A hit as the cursor hands it out: the score relative to the first score, when there is one. */
  datatype ScoredHit = ScoredHit(score: Option<real>, docnum: int)

  /** The searcher's answer: the number of matching documents and the ranked hits up to the page. */
  datatype Results = Results(total: nat, topN: seq<Hit>)

  /** The arguments of `searcher.search_page`. */
  datatype SearchRequest = SearchRequest(
    query: Query,
    mask: Option<set<Option<int>>>,
    filter: Query,
    pagenum: int,
    pagelen: int,
    sortedBy: Option<string>,
    reverse: bool
  )

  /** A page as cached and returned: its number, the total hit count and the normalised hits. */
  datatype Page = Page(pagenum: int, total: nat, topN: seq<ScoredHit>)

  /** What the cursor consults: the query compiler's collaborators, `isoparse`
      and whoosh's `search_page`. */
  datatype Env = Env(queries: QueryEnv, isoparse: DateParser, search: SearchRequest -> Results)

  /** The cursor's state. */
  datatype Cursor = Cursor(
    variant: Variant,
    params: Params,
    pageSize: int,
    saved: map<int, Page>,
    firstScore: Option<real>
  )

  /** The state every cursor keeps: a positive page size, and each cached page
      numbered after the offset it is cached under. */
  predicate Valid(c: Cursor) {
    && c.pageSize > 0
    && forall start :: start in c.saved ==> c.saved[start].pagenum == PageNumber(start, c.pageSize)
  }

  /** `__init__`: nothing cached, no first score. */
  function Init(variant: Variant, params: Params, pageSize: int): (c: Cursor)
    requires pageSize > 0
    ensures Valid(c) && c.saved == map[] && c.firstScore.None?
    ensures c.variant == variant && c.params == params && c.pageSize == pageSize
  {
    Cursor(variant, params, pageSize, map[], None)
  }

  /** `math.floor(start / page_size) + 1`: the 1-based number of the page holding offset `start`. */
  function PageNumber(start: int, pageSize: int): (n: int)
    requires pageSize > 0
    ensures (n - 1) * pageSize <= start < n * pageSize
    ensures start >= 0 ==> n >= 1
  {
    start / pageSize + 1
  }

  /** Python truthiness of the first score: `None` and `0.0` are false. */
  predicate Truthy(score: Option<real>) {
    score.Some? && score.value != 0.0
  }

  /** The first score after a fetch: set from the top hit when it was not
      truthy, the search is unsorted and the results are non-empty. */
  function NextFirstScore(first: Option<real>, results: Results, sortedBy: Option<string>): (r: Option<real>)
    ensures Truthy(first) ==> r == first
    ensures sortedBy.Some? ==> r == first
    ensures results.total == 0 ==> r == first
    ensures !Truthy(first) && sortedBy.None? && results.total > 0 && |results.topN| > 0 ==>
      r == Some(results.topN[0].score)
  {
    if !Truthy(first) && results.total > 0 && sortedBy.None? && |results.topN| > 0 then
      Some(results.topN[0].score)
    else first
  }

  /** The hits with each score divided by the first score, or all scores `None` when it is not truthy. */
  function Normalize(hits: seq<Hit>, first: Option<real>): (r: seq<ScoredHit>)
    ensures |r| == |hits|
    ensures forall k :: 0 <= k < |hits| ==> r[k].docnum == hits[k].docnum
    ensures forall k :: 0 <= k < |hits| ==> (r[k].score.Some? <==> Truthy(first))
    ensures Truthy(first) ==> forall k :: 0 <= k < |hits| ==> r[k].score == Some(hits[k].score / first.value)
  {
    seq(|hits|, k requires 0 <= k < |hits| =>
      ScoredHit(if Truthy(first) then Some(hits[k].score / first.value) else None, hits[k].docnum))
  }

  /** The search `__getitem__` sends for a page starting at `start`. */
  function Request(c: Cursor, start: int, env: Env): (r: Result<SearchRequest, QueryError>)
    requires c.pageSize > 0
    ensures r.Ok? ==> r.value.pagenum == PageNumber(start, c.pageSize) && r.value.pagelen == c.pageSize
    ensures r.Ok? ==> (r.value.sortedBy, r.value.reverse) == GetQuerySortedBy(c.params)
    ensures r.Err? <==> GetQuery(c.variant, c.params, env.queries).Err? || GetQueryFilter(c.params, env.isoparse).Err?
    ensures r.Ok? ==> var q := GetQuery(c.variant, c.params, env.queries).value;
      r.value.query == q.query && r.value.mask == q.mask
    ensures r.Ok? ==> r.value.filter == GetQueryFilter(c.params, env.isoparse).value
  {
    var compiled :- GetQuery(c.variant, c.params, env.queries);
    var sorted := GetQuerySortedBy(c.params);
    var filter :- GetQueryFilter(c.params, env.isoparse);
    Ok(SearchRequest(compiled.query, compiled.mask, filter, PageNumber(start, c.pageSize), c.pageSize, sorted.0, sorted.1))
  }

  /** Whatever the request's other criteria, the search that is sent admits
      only records that pass the owner / viewer permission filter. */
  lemma SearchEnforcesPermission(c: Cursor, start: int, env: Env, rec: IndexRecord, textHas: (string, string) -> bool)
    requires c.pageSize > 0 && Request(c, start, env).Ok?
    ensures Eval(Request(c, start, env).value.filter, rec, textHas) ==> Eval(PermissionFilter(c.params), rec, textHas)
  {
    FilterEnforcesPermission(c.params, env.isoparse, Request(c, start, env).value.filter, rec, textHas);
  }

  /** `__getitem__` for a slice starting at `start`: the cursor after the call and the page. */
  function GetItem(c: Cursor, start: int, env: Env): (r: (Cursor, Result<Page, QueryError>))
    requires Valid(c)
    ensures Valid(r.0)
    ensures r.0.variant == c.variant && r.0.params == c.params && r.0.pageSize == c.pageSize
    ensures start in c.saved ==> r == (c, Ok(c.saved[start]))
    ensures r.1.Err? ==> r.0 == c
    ensures r.1.Ok? ==> start in r.0.saved && r.0.saved[start] == r.1.value
    ensures r.1.Ok? ==> r.0.saved == c.saved[start := r.1.value]
    ensures Truthy(c.firstScore) ==> r.0.firstScore == c.firstScore
    ensures GetQuerySortedBy(c.params).0.Some? ==> r.0.firstScore == c.firstScore
    ensures start !in c.saved ==> (r.1.Err? <==> Request(c, start, env).Err?)
    ensures start !in c.saved && Request(c, start, env).Ok? ==>
      var req := Request(c, start, env).value;
      var res := env.search(req);
      && r.0.firstScore == NextFirstScore(c.firstScore, res, req.sortedBy)
      && r.1 == Ok(Page(PageNumber(start, c.pageSize), res.total, Normalize(res.topN, r.0.firstScore)))
  {
    if start in c.saved then (c, Ok(c.saved[start]))
    else
      match Request(c, start, env)
      case Err(e) => (c, Err(e))
      case Ok(req) =>
        var results := env.search(req);
        var first := NextFirstScore(c.firstScore, results, req.sortedBy);
        var page := Page(req.pagenum, results.total, Normalize(results.topN, first));
        (c.(saved := c.saved[start := page], firstScore := first), Ok(page))
  }

  /** `__len__`: the hit count of the page at offset 0 (fetched and cached if need be). */
  function Len(c: Cursor, env: Env): (r: (Cursor, Result<nat, QueryError>))
    requires Valid(c)
    ensures Valid(r.0)
    ensures 0 in c.saved ==> r == (c, Ok(c.saved[0].total))
    ensures r.1.Ok? ==> 0 in r.0.saved && r.0.saved[0].total == r.1.value
  {
    var (c', page) := GetItem(c, 0, env);
    match page
    case Err(e) => (c', Err(e))
    case Ok(p) => (c', Ok(p.total))
  }

  /** Asking twice for the same offset searches once: the second call returns
      the first call's page and leaves the cursor as the first call left it. */
  lemma SecondRequestCached(c: Cursor, start: int, env: Env, env2: Env)
    requires Valid(c)
    requires GetItem(c, start, env).1.Ok?
    ensures var (c1, p1) := GetItem(c, start, env);
      GetItem(c1, start, env2) == (c1, p1)
  {
  }

  /** On a fresh cursor, the top hit of the first unsorted, non-empty page
      with a non-zero top score is normalised to 1. */
  lemma FirstTopHitIsOne(c: Cursor, start: int, env: Env)
    requires Valid(c) && c.firstScore.None? && start !in c.saved
    requires Request(c, start, env).Ok? && Request(c, start, env).value.sortedBy.None?
    requires var res := env.search(Request(c, start, env).value);
      res.total > 0 && |res.topN| > 0 && res.topN[0].score != 0.0
    ensures GetItem(c, start, env).1.Ok?
    ensures |GetItem(c, start, env).1.value.topN| > 0
    ensures GetItem(c, start, env).1.value.topN[0].score == Some(1.0)
  {
    var res := env.search(Request(c, start, env).value);
    var s := res.topN[0].score;
    var first := NextFirstScore(None, res, None);
    assert first == Some(s);
    var hits := Normalize(res.topN, first);
    assert GetItem(c, start, env).1 == Ok(Page(PageNumber(start, c.pageSize), res.total, hits));
    NormalizedTop(res.topN);
  }

  /** Normalising by the top score turns a non-zero top score into one. */
  lemma NormalizedTop(hits: seq<Hit>)
    requires |hits| > 0 && hits[0].score != 0.0
    ensures Normalize(hits, Some(hits[0].score))[0].score == Some(1.0)
  {
    var s := hits[0].score;
    assert Normalize(hits, Some(s))[0].score == Some(s / s);
    SelfQuotient(s);
  }

  /** A non-zero number divided by itself is one. */
  lemma SelfQuotient(s: real)
    requires s != 0.0
    ensures s / s == 1.0
  {
    assert (s / s) * s == s;
  }

  /** Once a truthy first score is set, no later request changes it. */
  lemma {:induction false} FirstScoreFixed(c: Cursor, starts: seq<int>, env: Env)
    requires Valid(c) && Truthy(c.firstScore)
    ensures Run(c, starts, env).firstScore == c.firstScore
    decreases |starts|
  {
    if |starts| > 0 {
      FirstScoreFixed(GetItem(c, starts[0], env).0, starts[1..], env);
    }
  }

  /** Once a truthy first score is set, every page fetched afterwards, after
      any sequence of requests, has each raw score divided by that same score. */
  lemma LaterPagesNormalised(c: Cursor, starts: seq<int>, env: Env, start: int)
    requires Valid(c) && Truthy(c.firstScore)
    requires start !in Run(c, starts, env).saved
    requires Request(Run(c, starts, env), start, env).Ok?
    ensures var c' := Run(c, starts, env);
      var res := env.search(Request(c', start, env).value);
      var page := GetItem(c', start, env).1;
      && page.Ok? && |page.value.topN| == |res.topN|
      && forall k :: 0 <= k < |res.topN| ==>
           page.value.topN[k] == ScoredHit(Some(res.topN[k].score / c.firstScore.value), res.topN[k].docnum)
  {
    FirstScoreFixed(c, starts, env);
  }

  /** The cursor after a sequence of page requests. */
  function Run(c: Cursor, starts: seq<int>, env: Env): (r: Cursor)
    requires Valid(c)
    ensures Valid(r)
    decreases |starts|
  {
    if |starts| == 0 then c else Run(GetItem(c, starts[0], env).0, starts[1..], env)
  }

  /** A page once cached is never replaced by later requests. */
  lemma {:induction false} CachedPagesStay(c: Cursor, starts: seq<int>, env: Env, start: int)
    requires Valid(c) && start in c.saved
    ensures start in Run(c, starts, env).saved && Run(c, starts, env).saved[start] == c.saved[start]
    decreases |starts|
  {
    if |starts| > 0 {
      CachedPagesStay(GetItem(c, starts[0], env).0, starts[1..], env, start);
    }
  }
}
