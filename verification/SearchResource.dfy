/** A searchable resource: requests are normalised, scope filters added, and the backend asked. */
module SearchResource {
  import opened Numbers
  import opened Options
  import opened Decimal
  import opened Cursor
  import opened SearchModel
  import opened SearchOrder
  import opened SearchFacets
  import opened SearchPaging
  import opened SearchBackend

  const DEFAULT_LIMIT := 20
  const MAX_LIMIT := 100
  const MAX_FILTERS := 20
  const MAX_FACETS := 10
  const MAX_FACET_BUCKETS := 100
  const MAX_QUERY_LENGTH := 512
  const DEFAULT_FACET_LIMIT := 20

  datatype Error = InvalidRequest | ScopeFailed | InvalidScope | BackendFailed

  datatype Outcome<T> = Ok(value: T) | Fail(error: Error)

  // ---- normalisation -----------------------------------------------------------------

  /** A facet with its defaults filled in; None when it asks for something unknown. */
  function NormalFacet(schema: Schema, f: FacetRequest): Option<FacetRequest> {
    var mode := if f.mode == "" then "disjunctive" else f.mode;
    var limit := if f.limit == 0 then DEFAULT_FACET_LIMIT else f.limit;
    var sort := if f.sort == "" then "count" else f.sort;
    if f.field in schema && schema[f.field].facetable && mode in {"disjunctive", "conjunctive"}
       && 1 <= limit <= MAX_FACET_BUCKETS && sort in {"count", "value"}
    then Some(f.(mode := mode, limit := limit, sort := sort))
    else None
  }

  function NormalSort(schema: Schema, s: Sort): Option<Sort> {
    var direction := if s.direction == "" then "asc" else s.direction;
    if s.field in schema && schema[s.field].sortable && direction in {"asc", "desc"}
    then Some(s.(direction := direction)) else None
  }

  predicate FacetsAllowed(schema: Schema, facets: seq<FacetRequest>) {
    && (forall i :: 0 <= i < |facets| ==> NormalFacet(schema, facets[i]).Some?)
    && forall i, j :: 0 <= i < j < |facets| ==> facets[i].field != facets[j].field
  }

  predicate SortsAllowed(schema: Schema, sorts: seq<Sort>) {
    forall i :: 0 <= i < |sorts| ==> NormalSort(schema, sorts[i]).Some?
  }

  function NormalFacets(schema: Schema, facets: seq<FacetRequest>): (r: seq<FacetRequest>)
    requires FacetsAllowed(schema, facets)
  {
    seq(|facets|, i requires 0 <= i < |facets| => NormalFacet(schema, facets[i]).value)
  }

  function NormalSorts(schema: Schema, sorts: seq<Sort>): (r: seq<Sort>)
    requires SortsAllowed(schema, sorts)
  {
    seq(|sorts|, i requires 0 <= i < |sorts| => NormalSort(schema, sorts[i]).value)
  }

  /** Trimming white space is library code, given as a parameter. */
  function Normalize(e: Engine, trim: string -> string, r: SearchRequest): Option<SearchRequest> {
    var query := trim(r.query);
    var limit := if r.limit == 0 then DEFAULT_LIMIT else r.limit;
    if |query| <= MAX_QUERY_LENGTH && 1 <= limit <= MAX_LIMIT && |r.filters| <= MAX_FILTERS && |r.facets| <= MAX_FACETS
       && DecodeCursor(r.cursor).Some? && ValidFilters(e.lib, e.schema, r.filters)
       && FacetsAllowed(e.schema, r.facets) && SortsAllowed(e.schema, r.sort)
    then Some(r.(query := query, limit := limit,
                 facets := NormalFacets(e.schema, r.facets), sort := NormalSorts(e.schema, r.sort)))
    else None
  }

  /** The loop that fills facets in place, with the fields seen so far. */
  method NormalizeFacets(schema: Schema, facets: seq<FacetRequest>) returns (r: Option<seq<FacetRequest>>)
    ensures r == if FacetsAllowed(schema, facets) then Some(NormalFacets(schema, facets)) else None
  {
    var result := facets;
    var seen := {};
    for i := 0 to |facets|
      invariant |result| == |facets|
      invariant seen == set k | 0 <= k < i :: facets[k].field
      invariant forall k :: 0 <= k < i ==> NormalFacet(schema, facets[k]) == Some(result[k])
      invariant forall k :: i <= k < |facets| ==> result[k] == facets[k]
      invariant forall j, k :: 0 <= j < k < i ==> facets[j].field != facets[k].field
    {
      var facet := facets[i];
      if facet.field !in schema || !schema[facet.field].facetable {
        return None;
      }
      if facet.field in seen {
        var k :| 0 <= k < i && facets[k].field == facets[i].field;
        return None;
      }
      seen := seen + {facet.field};
      if facet.mode == "" {
        facet := facet.(mode := "disjunctive");
      }
      if facet.mode != "disjunctive" && facet.mode != "conjunctive" {
        return None;
      }
      if facet.limit == 0 {
        facet := facet.(limit := DEFAULT_FACET_LIMIT);
      }
      if facet.limit < 1 || facet.limit > MAX_FACET_BUCKETS {
        return None;
      }
      if facet.sort == "" {
        facet := facet.(sort := "count");
      }
      if facet.sort != "count" && facet.sort != "value" {
        return None;
      }
      result := result[i := facet];
    }
    assert FacetsAllowed(schema, facets) && result == NormalFacets(schema, facets);
    r := Some(result);
  }

  method NormalizeSort(schema: Schema, sorts: seq<Sort>) returns (r: Option<seq<Sort>>)
    ensures r == if SortsAllowed(schema, sorts) then Some(NormalSorts(schema, sorts)) else None
  {
    var result := sorts;
    for i := 0 to |sorts|
      invariant |result| == |sorts|
      invariant forall k :: 0 <= k < i ==> NormalSort(schema, sorts[k]) == Some(result[k])
      invariant forall k :: i <= k < |sorts| ==> result[k] == sorts[k]
    {
      var sort := sorts[i];
      if sort.field !in schema || !schema[sort.field].sortable {
        return None;
      }
      if sort.direction == "" {
        sort := sort.(direction := "asc");
      }
      if sort.direction != "asc" && sort.direction != "desc" {
        return None;
      }
      result := result[i := sort];
    }
    assert SortsAllowed(schema, sorts) && result == NormalSorts(schema, sorts);
    r := Some(result);
  }

  method NormalizeRequest(e: Engine, trim: string -> string, request: SearchRequest) returns (r: Option<SearchRequest>)
    ensures r == Normalize(e, trim, request)
  {
    var query := trim(request.query);
    if |query| > MAX_QUERY_LENGTH {
      return None;
    }
    var limit := if request.limit == 0 then DEFAULT_LIMIT else request.limit;
    if limit < 1 || limit > MAX_LIMIT {
      return None;
    }
    if |request.filters| > MAX_FILTERS || |request.facets| > MAX_FACETS {
      return None;
    }
    if DecodeCursor(request.cursor).None? || !ValidFilters(e.lib, e.schema, request.filters) {
      return None;
    }
    var facets := NormalizeFacets(e.schema, request.facets);
    if facets.None? {
      return None;
    }
    var sort := NormalizeSort(e.schema, request.sort);
    if sort.None? {
      return None;
    }
    r := Some(request.(query := query, limit := limit, facets := facets.value, sort := sort.value));
  }

  /** A normalised request is one the backend can serve. */
  lemma NormalIsServed(e: Engine, trim: string -> string, r: SearchRequest)
    requires Normalize(e, trim, r).Some?
    ensures Served(Normalize(e, trim, r).value)
  {
  }

  /** Normalising again changes nothing, if trimming again does not. */
  lemma NormalizeIsIdempotent(e: Engine, trim: string -> string, r: SearchRequest)
    requires forall s :: trim(trim(s)) == trim(s)
    requires Normalize(e, trim, r).Some?
    ensures Normalize(e, trim, Normalize(e, trim, r).value) == Normalize(e, trim, r)
  {
    var n := Normalize(e, trim, r).value;
    assert NormalFacets(e.schema, n.facets) == n.facets;
    assert NormalSorts(e.schema, n.sort) == n.sort;
  }

  // ---- scope ----------------------------------------------------------------------------

  function Mandatory(filters: seq<Filter>): (r: seq<Filter>)
    ensures |r| == |filters| && forall i :: 0 <= i < |r| ==> r[i] == filters[i].(mandatory := true)
  {
    seq(|filters|, i requires 0 <= i < |filters| => filters[i].(mandatory := true))
  }

  /** How a resource is scoped: not at all, or by what its scope function returned, if it did not fail. */
  datatype Scope = Unscoped | Resolved(filters: seq<Filter>) | Failed

  /** The request the backend gets. */
  function Effective(e: Engine, trim: string -> string, request: SearchRequest, scope: Scope): Outcome<SearchRequest> {
    match Normalize(e, trim, request)
    case None => Fail(InvalidRequest)
    case Some(normalized) =>
      match scope
      case Unscoped => Ok(normalized)
      case Failed => Fail(ScopeFailed)
      case Resolved(filters) =>
        match Normalize(e, trim, normalized.(filters := normalized.filters + Mandatory(filters)))
        case None => Fail(InvalidScope)
        case Some(full) => Ok(full)
  }

  class Resource {
    const name: string
    const engine: Engine
    const backend: MemoryBackend

    constructor (name: string, engine: Engine, backend: MemoryBackend)
      ensures this.name == name && this.engine == engine && this.backend == backend
    {
      this.name := name;
      this.engine := engine;
      this.backend := backend;
    }

    method Search(trim: string -> string, request: SearchRequest, scope: Scope) returns (r: Outcome<SearchResult>)
      ensures match Effective(engine, trim, request, scope)
              case Fail(error) => r == Fail(error)
              case Ok(full) => Served(full) && r.Ok? && Answers(engine, backend.Of(name), full, r.value)
    {
      var normal := NormalizeRequest(engine, trim, request);
      if normal.None? {
        return Fail(InvalidRequest);
      }
      var normalized := normal.value;
      NormalIsServed(engine, trim, request);
      match scope {
        case Unscoped =>
        case Failed =>
          return Fail(ScopeFailed);
        case Resolved(resolved) =>
          var filters := resolved;
          for index := 0 to |filters|
            invariant |filters| == |resolved|
            invariant forall k :: 0 <= k < index ==> filters[k] == resolved[k].(mandatory := true)
            invariant forall k :: index <= k < |filters| ==> filters[k] == resolved[k]
          {
            filters := filters[index := filters[index].(mandatory := true)];
          }
          assert filters == Mandatory(resolved);
          normalized := normalized.(filters := normalized.filters + filters);
          normal := NormalizeRequest(engine, trim, normalized);
          if normal.None? {
            return Fail(InvalidScope);
          }
          NormalIsServed(engine, trim, normalized);
          normalized := normal.value;
      }
      EffectiveCursor(engine, trim, request, scope);
      var result := backend.Search(engine, name, normalized);
      if result.None? {
        return Fail(BackendFailed);
      }
      r := Ok(result.value);
    }
  }

  /** Normalisation has rejected the cursors the backend could not read. */
  lemma EffectiveCursor(e: Engine, trim: string -> string, request: SearchRequest, scope: Scope)
    requires Effective(e, trim, request, scope).Ok?
    ensures DecodeCursor(Effective(e, trim, request, scope).value.cursor).Some?
  {
  }

  // ---- what a scoped search can show --------------------------------------------------

  ghost predicate InScope(e: Engine, doc: Document, filters: seq<Filter>) {
    forall f <- filters :: Accepts(e, doc, f)
  }

  /** Whether a filter is mandatory does not change what it accepts. */
  lemma MandatoryAcceptsSame(e: Engine, doc: Document, f: Filter)
    ensures Accepts(e, doc, f) <==> Accepts(e, doc, f.(mandatory := true))
  {
  }

  lemma ScopeIsKept(e: Engine, trim: string -> string, request: SearchRequest, filters: seq<Filter>, f: Filter,
      field: string)
    requires Effective(e, trim, request, Resolved(filters)).Ok? && f in filters
    ensures f.(mandatory := true) in Effective(e, trim, request, Resolved(filters)).value.filters
    ensures f.(mandatory := true) in WithoutField(Effective(e, trim, request, Resolved(filters)).value.filters, field)
  {
    var full := Effective(e, trim, request, Resolved(filters)).value;
    WithoutFieldMembers(full.filters, field);
    var i :| 0 <= i < |filters| && filters[i] == f;
    assert Mandatory(filters)[i] == f.(mandatory := true);
    assert f.(mandatory := true) in Mandatory(filters);
  }

  /** A document matched by filters is accepted by each of them. */
  lemma MatchedAccepts(e: Engine, docs: Documents, query: string, filters: seq<Filter>, x: Scored, f: Filter)
    requires x in MatchesIn(e, docs, query, filters) && f in filters
    ensures x.id in docs && x.attributes == docs[x.id] && Accepts(e, x.attributes, f)
  {
    var i :| 0 <= i < |filters| && filters[i] == f;
    assert Matches(e.lib, e.search, e.schema, docs[x.id], filters[i]);
  }

  lemma MatchedInScope(
    e: Engine, trim: string -> string, docs: Documents, request: SearchRequest, filters: seq<Filter>,
    full: SearchRequest, mode: string, field: string, used: seq<Filter>, x: Scored)
    requires Effective(e, trim, request, Resolved(filters)) == Ok(full)
    requires used == if mode == "disjunctive" then WithoutField(full.filters, field) else full.filters
    requires x in MatchesIn(e, docs, full.query, used)
    ensures x.id in docs && x.attributes == docs[x.id] && InScope(e, x.attributes, filters)
  {
    forall f | f in filters ensures Accepts(e, x.attributes, f) {
      ScopeIsKept(e, trim, request, filters, f, field);
      MatchedAccepts(e, docs, full.query, used, x, f.(mandatory := true));
      MandatoryAcceptsSame(e, x.attributes, f);
    }
  }

  /** Whatever a client asks, every hit lies within the resource's scope. */
  lemma HitsInScope(
    e: Engine, trim: string -> string, docs: Documents, request: SearchRequest, filters: seq<Filter>,
    full: SearchRequest, r: SearchResult, x: Scored)
    requires Effective(e, trim, request, Resolved(filters)) == Ok(full) && Served(full)
    requires Answers(e, docs, full, r) && x in r.items
    ensures x.id in docs && x.attributes == docs[x.id] && InScope(e, x.attributes, filters)
  {
    var found := Found(e, docs, full);
    assert x in found;
    assert x in MatchesIn(e, docs, full.query, full.filters);
    MatchedInScope(e, trim, docs, request, filters, full, "", "", full.filters, x);
  }

  /** So does every document counted in any bucket of any facet. */
  lemma CountedInScope(
    e: Engine, trim: string -> string, docs: Documents, request: SearchRequest, filters: seq<Filter>,
    full: SearchRequest, facet: FacetRequest, v: Value, x: Scored)
    requires Effective(e, trim, request, Resolved(filters)) == Ok(full)
    requires x in Holders(MatchesIn(e, docs, full.query, FacetFilters(full, facet)), facet, v)
    ensures x.id in docs && x.attributes == docs[x.id] && InScope(e, x.attributes, filters)
  {
    MatchedInScope(e, trim, docs, request, filters, full, facet.mode, facet.field, FacetFilters(full, facet), x);
  }

  /** A disjunctive facet counts the documents all filters accept, but for client filters on its own field. */
  lemma DisjunctiveCounts(e: Engine, docs: Documents, request: SearchRequest, facet: FacetRequest, id: string)
    requires id in docs && facet.mode == "disjunctive"
    ensures Scored(id, docs[id], Score(e, docs[id], request.query))
              in MatchesIn(e, docs, request.query, FacetFilters(request, facet))
       <==> Matched(e, docs[id], request.query, [])
            && forall f <- request.filters :: f.field != facet.field || f.mandatory ==> Accepts(e, docs[id], f)
  {
    var kept := WithoutField(request.filters, facet.field);
    WithoutFieldMembers(request.filters, facet.field);
    assert Accepted(e, docs[id], kept) <==> forall f <- kept :: Accepts(e, docs[id], f);
  }

  // ---- following cursors, first the backend's ------------------------------------------------

  /** The same request, each time with the cursor of the answer before. */
  ghost predicate Crawled(e: Engine, docs: Documents, request: SearchRequest, answers: seq<SearchResult>)
    requires Served(request)
  {
    forall i :: 0 <= i < |answers| ==> CrawledAt(e, docs, request, answers, i)
  }

  ghost predicate CrawledAt(e: Engine, docs: Documents, request: SearchRequest, answers: seq<SearchResult>, i: nat)
    requires Served(request) && i < |answers|
  {
    && Answers(e, docs, request.(cursor := if i == 0 then "" else answers[i - 1].next), answers[i])
    && (i > 0 ==> answers[i - 1].next != "")
  }

  ghost function Pages(answers: seq<SearchResult>): (r: seq<Page<Scored>>)
    ensures |r| == |answers|
  {
    seq(|answers|, i requires 0 <= i < |answers| => Page(answers[i].items, answers[i].next))
  }

  /** Following the backend's cursors until there is none lists the matches in their one order, each exactly once. */
  lemma BackendCrawlFindsAll(e: Engine, docs: Documents, request: SearchRequest, answers: seq<SearchResult>)
    requires Served(request) && answers != [] && Crawled(e, docs, request, answers)
    requires |Found(e, docs, request)| <= MAX_INT64 && answers[|answers| - 1].next == ""
    ensures var all := Concat(Pages(answers));
            && all == Found(e, docs, request) && Ranked(e, request.sort, all)
            && Lists(all, MatchesIn(e, docs, request.query, request.filters))
  {
    CrawlFollows(e, docs, request, answers);
    CursorsFaithful(|Found(e, docs, request)|);
    WholeCrawl(CURSORS, Found(e, docs, request), request.limit, Pages(answers));
  }

  lemma BackendCrawlEnds(e: Engine, docs: Documents, request: SearchRequest, answers: seq<SearchResult>)
    requires Served(request) && |answers| > 1 && Crawled(e, docs, request, answers)
    requires |Found(e, docs, request)| <= MAX_INT64
    ensures |answers| - 1 <= Reach(|answers| - 1, request.limit) < |Found(e, docs, request)|
  {
    CrawlFollows(e, docs, request, answers);
    CursorsFaithful(|Found(e, docs, request)|);
    CrawlIsShort(CURSORS, Found(e, docs, request), request.limit, Pages(answers));
  }

  lemma CursorsFaithful(largest: nat)
    requires largest <= MAX_INT64
    ensures Faithful(CURSORS, largest)
  {
    forall n: nat | n <= largest
      ensures CURSORS.decode(CURSORS.encode(n)) == Some(n) && (CURSORS.encode(n) == "" <==> n == 0)
    {
      CursorRoundTrip(n);
    }
  }

  /** The pages of a crawl follow one another over the ranked matches. */
  lemma CrawlFollows(e: Engine, docs: Documents, request: SearchRequest, answers: seq<SearchResult>)
    requires Served(request) && Crawled(e, docs, request, answers)
    ensures Followed(CURSORS, Found(e, docs, request), request.limit, Pages(answers))
  {
    forall i | 0 <= i < |answers|
      ensures FollowsAt(CURSORS, Found(e, docs, request), request.limit, Pages(answers), i)
    {
      AnswerFollows(e, docs, request, answers, i);
    }
  }

  lemma AnswerFollows(e: Engine, docs: Documents, request: SearchRequest, answers: seq<SearchResult>, i: nat)
    requires Served(request) && Crawled(e, docs, request, answers) && i < |answers|
    ensures FollowsAt(CURSORS, Found(e, docs, request), request.limit, Pages(answers), i)
  {
    assert CrawledAt(e, docs, request, answers, i);
    AnswerIsPage(e, docs, request, if i == 0 then "" else answers[i - 1].next, answers[i]);
  }

  lemma AnswerIsPage(e: Engine, docs: Documents, request: SearchRequest, cursor: string, r: SearchResult)
    requires Served(request) && Answers(e, docs, request.(cursor := cursor), r)
    ensures PageOf(CURSORS, Found(e, docs, request), cursor, request.limit) == Some(Page(r.items, r.next))
  {
    FoundIgnoresCursor(e, docs, request, cursor);
  }

  lemma FoundIgnoresCursor(e: Engine, docs: Documents, request: SearchRequest, cursor: string)
    ensures Found(e, docs, request.(cursor := cursor)) == Found(e, docs, request)
  {
  }

  /** Normalisation and scoping look at the cursor only to refuse a malformed one. */
  lemma NormalizeKeepsCursor(e: Engine, trim: string -> string, r: SearchRequest, cursor: string)
    requires Normalize(e, trim, r).Some? && Normalize(e, trim, r.(cursor := cursor)).Some?
    ensures Normalize(e, trim, r.(cursor := cursor)).value == Normalize(e, trim, r).value.(cursor := cursor)
  {
  }

  lemma EffectiveKeepsCursor(e: Engine, trim: string -> string, r: SearchRequest, cursor: string, scope: Scope)
    requires Effective(e, trim, r, scope).Ok? && Effective(e, trim, r.(cursor := cursor), scope).Ok?
    ensures Effective(e, trim, r.(cursor := cursor), scope).value
        == Effective(e, trim, r, scope).value.(cursor := cursor)
  {
    NormalizeKeepsCursor(e, trim, r, cursor);
    if scope.Resolved? {
      var n := Normalize(e, trim, r).value;
      NormalizeKeepsCursor(e, trim, n.(filters := n.filters + Mandatory(scope.filters)), cursor);
    }
  }

  /** What Resource.Search promises of a successful search. */
  ghost predicate Returned(
    e: Engine, trim: string -> string, docs: Documents, request: SearchRequest, scope: Scope, r: SearchResult)
  {
    match Effective(e, trim, request, scope)
    case Ok(full) => Served(full) && Answers(e, docs, full, r)
    case Fail(_) => false
  }

  /** A client never gets stuck: whatever cursor a search returns, the resource accepts it and has a page for it. */
  lemma NextIsAccepted(
    e: Engine, trim: string -> string, docs: Documents, request: SearchRequest, scope: Scope, r: SearchResult)
    requires Returned(e, trim, docs, request, scope, r) && |docs| <= MAX_INT64
    ensures var next := Effective(e, trim, request.(cursor := r.next), scope);
            && next.Ok? && next.value == Effective(e, trim, request, scope).value.(cursor := r.next)
            && PageOf(CURSORS, Found(e, docs, next.value), r.next, next.value.limit).Some?
  {
    var full := Effective(e, trim, request, scope).value;
    var found := Found(e, docs, full);
    MatchesAreFew(e, docs, full.query, full.filters);
    CursorsFaithful(|found|);
    NextDecodes(CURSORS, found, full.cursor, full.limit);
    CursorAccepted(e, trim, request, r.next);
    if scope.Resolved? {
      var n := Normalize(e, trim, request).value;
      CursorAccepted(e, trim, n.(filters := n.filters + Mandatory(scope.filters)), r.next);
    }
    FoundIgnoresCursor(e, docs, full, r.next);
  }

  lemma CursorAccepted(e: Engine, trim: string -> string, r: SearchRequest, cursor: string)
    requires Normalize(e, trim, r).Some? && DecodeCursor(cursor).Some?
    ensures Normalize(e, trim, r.(cursor := cursor)) == Some(Normalize(e, trim, r).value.(cursor := cursor))
  {
  }

  /** A client sends its request with the empty cursor, and then with the cursor of each result. */
  ghost predicate ClientCrawls(
    e: Engine, trim: string -> string, docs: Documents, request: SearchRequest, scope: Scope,
    answers: seq<SearchResult>)
  {
    forall i :: 0 <= i < |answers| ==> ClientCrawlsAt(e, trim, docs, request, scope, answers, i)
  }

  ghost predicate ClientCrawlsAt(
    e: Engine, trim: string -> string, docs: Documents, request: SearchRequest, scope: Scope,
    answers: seq<SearchResult>, i: nat)
    requires i < |answers|
  {
    var cursor := if i == 0 then "" else answers[i - 1].next;
    Returned(e, trim, docs, request.(cursor := cursor), scope, answers[i]) && (i > 0 ==> cursor != "")
  }

  /** The client's crawl is a crawl of the backend with its one effective request. */
  lemma CrawlsBackend(
    e: Engine, trim: string -> string, docs: Documents, request: SearchRequest, scope: Scope,
    answers: seq<SearchResult>)
    requires answers != [] && ClientCrawls(e, trim, docs, request, scope, answers)
    ensures var first := Effective(e, trim, request.(cursor := ""), scope);
            first.Ok? && Served(first.value) && Crawled(e, docs, first.value, answers)
  {
    assert ClientCrawlsAt(e, trim, docs, request, scope, answers, 0);
    var base := request.(cursor := "");
    var full := Effective(e, trim, base, scope).value;
    forall i | 0 <= i < |answers| ensures CrawledAt(e, docs, full, answers, i) {
      assert ClientCrawlsAt(e, trim, docs, request, scope, answers, i);
      var cursor := if i == 0 then "" else answers[i - 1].next;
      EffectiveKeepsCursor(e, trim, base, cursor, scope);
    }
  }

  /**
   * Over unchanging documents and scope, a client that follows NextCursor through
   * the resource until there is none gets exactly the documents that match its
   * request within the scope, in their one order, each once.
   */
  lemma CrawlFindsAll(
    e: Engine, trim: string -> string, docs: Documents, request: SearchRequest, scope: Scope,
    answers: seq<SearchResult>)
    requires answers != [] && ClientCrawls(e, trim, docs, request, scope, answers)
    requires answers[|answers| - 1].next == "" && |docs| <= MAX_INT64
    ensures var full := Effective(e, trim, request.(cursor := ""), scope);
            && full.Ok?
            && var all := Concat(Pages(answers));
            && Ranked(e, full.value.sort, all)
            && Lists(all, MatchesIn(e, docs, full.value.query, full.value.filters))
  {
    CrawlsBackend(e, trim, docs, request, scope, answers);
    var full := Effective(e, trim, request.(cursor := ""), scope).value;
    MatchesAreFew(e, docs, full.query, full.filters);
    BackendCrawlFindsAll(e, docs, full, answers);
  }

  /** And it ends: all results but the last are full pages and do not hold all matches. */
  lemma CrawlEnds(
    e: Engine, trim: string -> string, docs: Documents, request: SearchRequest, scope: Scope,
    answers: seq<SearchResult>)
    requires |answers| > 1 && ClientCrawls(e, trim, docs, request, scope, answers) && |docs| <= MAX_INT64
    ensures |answers| - 1 < |docs|
  {
    CrawlsBackend(e, trim, docs, request, scope, answers);
    var full := Effective(e, trim, request.(cursor := ""), scope).value;
    MatchesAreFew(e, docs, full.query, full.filters);
    BackendCrawlEnds(e, docs, full, answers);
  }

  lemma MatchesAreFew(e: Engine, docs: Documents, query: string, filters: seq<Filter>)
    ensures |MatchesIn(e, docs, query, filters)| <= |docs|
  {
    var matches := MatchesIn(e, docs, query, filters);
    var ids := set x | x in matches :: x.id;
    IdsOfKeyed(matches);
    SubsetSize(ids, docs.Keys);
  }

  lemma {:induction false} IdsOfKeyed(members: set<Scored>)
    requires Keyed(members)
    ensures |set x | x in members :: x.id| == |members|
    decreases members
  {
    if members != {} {
      var y :| y in members;
      IdsOfKeyed(members - {y});
      var rest := set x | x in members - {y} :: x.id;
      assert (set x | x in members :: x.id) == rest + {y.id};
    }
  }

  /** A ranked list names no document twice. */
  lemma EachOnce(e: Engine, sorts: seq<Sort>, s: seq<Scored>, i: nat, j: nat)
    requires Ranked(e, sorts, s) && i < j < |s|
    ensures s[i] != s[j]
  {
    TotalOrder(e, sorts, s[i], s[i], s[i]);
  }
}
